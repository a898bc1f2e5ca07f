/** The trade between two players (src/game.cpp): request, accept and close.

    Which item holds which (`holding`, at any depth) stays fixed. Whether the two items could change
    hands, and whether a script denied a step, are parameters. `refCount` of an item counts its
    references; those that have nothing to do with trades are `others`. */
module Trade {

  datatype TradeState = TradeNone | Initiated | Accepted | Acknowledge | Transfer

  class Item {
    ghost const others: nat
    var refCount: int

    constructor (others: nat)
      ensures this.others == others && refCount == others && fresh(this)
    {
      this.others, refCount := others, others;
    }
  }

  class Player {
    const id: nat
    var tradeState: TradeState
    var tradePartner: Player?
    var tradeItem: Item?

    constructor (id: nat)
      ensures this.id == id && Idle() && fresh(this)
    {
      this.id, tradeState, tradePartner, tradeItem := id, TradeNone, null, null;
    }

    ghost predicate Idle()
      reads this
    {
      tradeState == TradeNone && tradePartner == null && tradeItem == null
    }

    /** What the state of a player says about the player's partner and item. */
    ghost predicate Sound()
      reads this, tradePartner
    {
      && tradeState != Transfer
      && (tradeState == TradeNone <==> tradePartner == null)
      && (tradeState == TradeNone || tradeState == Acknowledge ==> tradeItem == null)
      && (tradeState == Initiated ==> tradeItem != null)
      && (tradePartner != null ==>
            && tradePartner != this && tradePartner.tradePartner == this
            && (tradeItem == null ==> tradePartner.tradeItem != null))
    }
  }

  /** One request to the game, with the answers of the world around it. */
  datatype Request =
    | Ask(player: Player, partner: Player, item: Item, holdingCount: nat, deny: bool)
    | Accept(player: Player, reachable: bool, deny: bool, possible: bool, hooks: seq<bool>)
    | Close(player: Player)
    | Clean

  class Game {
    const players: set<Player>
    const holding: set<(Item, Item)>
    ghost const items: set<Item>
    var tradeItems: map<Item, nat>
    var releaseThings: seq<Item>

    constructor (players: set<Player>, ghost items: set<Item>, holding: set<(Item, Item)>)
      requires forall p | p in players :: p.Idle()
      requires forall p, q | p in players && q in players && p.id == q.id :: p == q
      requires forall item | item in items :: item.refCount == item.others
      ensures Valid() && fresh(this) && this.players == players && this.items == items && this.holding == holding
    {
      this.players, this.items, this.holding := players, items, holding;
      tradeItems, releaseThings := map[], [];
    }

    /** Links between players are symmetric, and the states say who offers what; players who are
        `busy` with the transfer of their items are left aside. */
    ghost predicate Linked(busy: set<Player>)
      reads players
    {
      forall p {:trigger p.Sound()} | p in players && p !in busy ::
        (p.tradePartner != null ==> p.tradePartner in players && p.tradePartner !in busy) && p.Sound()
    }

    /** tradeItems holds exactly the items on offer, each with its offerer, none inside another. */
    ghost predicate Offers(busy: set<Player>)
      reads this`tradeItems, players`tradeItem
    {
      && (forall p, q | p in players && q in players && p.id == q.id :: p == q)
      && (forall p | p in players && p !in busy && p.tradeItem != null ::
        p.tradeItem in tradeItems && tradeItems[p.tradeItem] == p.id)
      && (forall item | item in tradeItems :: item in items && Offered(item, busy))
      && (forall a, b | a in tradeItems && b in tradeItems && a != b :: (a, b) !in holding)
    }

    ghost predicate Offered(item: Item, busy: set<Player>)
      reads players`tradeItem
    {
      exists p | p in players && p !in busy :: p.tradeItem == item
    }

    /** Every item on offer is referenced once for it, every released reference once more. */
    ghost predicate Referenced()
      reads this`tradeItems, this`releaseThings, items`refCount
    {
      && (forall item | item in items :: item.refCount == item.others + Pending(item))
      && (forall item | item in releaseThings :: item in items)
    }

    ghost function Pending(item: Item): nat
      reads this`tradeItems, this`releaseThings
    {
      multiset(releaseThings)[item] + if item in tradeItems then 1 else 0
    }

    ghost predicate Within(busy: set<Player>)
      reads this, players, items
    {
      Linked(busy) && Offers(busy) && Referenced()
    }

    ghost predicate Valid()
      reads this, players, items
    {
      Within({})
    }

    /** The item can be offered beside those on offer: it is not one of them, nor in one, nor around one. */
    ghost predicate Unrelated(item: Item)
      reads this`tradeItems
    {
      forall other | other in tradeItems :: item != other && (item, other) !in holding && (other, item) !in holding
    }

    ghost predicate Pair(a: Player, b: Player)
      reads a, b
    {
      (a.tradePartner == null || a.tradePartner == b) && (b.tradePartner == null || b.tradePartner == a)
    }

    /** Two players who have no partner but each other can be looked at apart from the rest. */
    lemma Apart(a: Player, b: Player)
      requires Linked({}) && a in players && b in players && Pair(a, b)
      ensures Linked({a, b})
    {
      forall p | p in players && p != a && p != b ensures p.tradePartner != a && p.tradePartner != b && p.Sound() {
        assert a.Sound() && b.Sound() && p.Sound();
      }
    }

    lemma Together(a: Player, b: Player)
      requires Linked({a, b}) && a.Sound() && b.Sound() && a in players && b in players && Pair(a, b)
      ensures Linked({})
    {
      forall p | p in players ensures p.Sound() && (p.tradePartner != null ==> p.tradePartner in players) {
        assert p != a && p != b ==> p.Sound();
      }
    }

    /** Whether internalStartTrade lets the two trade. */
    predicate MayStart(player: Player, tradePartner: Player)
      reads player, tradePartner
    {
      && (player.tradeState == TradeNone || (player.tradeState == Acknowledge && player.tradePartner == tradePartner))
      && (tradePartner.tradeState == TradeNone || tradePartner.tradePartner == player)
    }

    /** What that comes to among players whose states are sound: both are idle, or the player was asked
        by the other for an item. */
    ghost predicate Starts(player: Player, tradePartner: Player)
      reads player, tradePartner
    {
      match player.tradeState
      case TradeNone => tradePartner.tradeState == TradeNone
      case Acknowledge => player.tradePartner == tradePartner
      case _ => false
    }

    /** The player's item goes on the list. */
    method Offer(player: Player, tradeItem: Item, ghost busy: set<Player>)
      requires Linked(busy) && Offers({}) && Referenced()
      requires player in busy && player in players && player.tradeItem == null && tradeItem in items &&
        Unrelated(tradeItem)
      modifies this`tradeItems, player`tradeItem, tradeItem`refCount
      ensures Linked(busy) && Offers({}) && Referenced() && player.tradeItem == tradeItem
      ensures tradeItems == old(tradeItems)[tradeItem := player.id] && tradeItem.refCount == old(tradeItem.refCount) + 1
    {
      player.tradeItem := tradeItem;
      tradeItem.refCount := tradeItem.refCount + 1;
      tradeItems := tradeItems[tradeItem := player.id];
      forall item | item in tradeItems ensures Offered(item, {}) {
        assert item != tradeItem ==> old(Offered(item, {}));
      }
      forall p | p in players && p !in busy
        ensures p.Sound() && (p.tradePartner != null ==> p.tradePartner in players - busy)
      {
        assert old(p.Sound());
      }
    }

    /** The two become partners; the other side is asked for its item unless it has a state already. */
    method Join(player: Player, tradePartner: Player)
      requires player in players && tradePartner in players && player != tradePartner
      requires Linked({player, tradePartner}) && MayStart(player, tradePartner) && player.tradeItem != null
      requires tradePartner.Idle() || (player.tradePartner == tradePartner && tradePartner.Sound())
      modifies player`tradeState, player`tradePartner, tradePartner`tradeState, tradePartner`tradePartner
      ensures Linked({}) && player.tradeState == Initiated && player.tradePartner == tradePartner &&
        tradePartner.tradePartner == player
      ensures tradePartner.tradeState ==
        if old(tradePartner.tradeState) == TradeNone then Acknowledge else old(tradePartner.tradeState)
    {
      player.tradePartner := tradePartner;
      player.tradeState := Initiated;
      if tradePartner.tradeState == TradeNone {
        tradePartner.tradeState := Acknowledge;
        tradePartner.tradePartner := player;
      }
      forall p | p in players && p != player && p != tradePartner
        ensures p.Sound() && (p.tradePartner != null ==> p.tradePartner in players - {player, tradePartner})
      {
        assert old(p.Sound());
      }
      Together(player, tradePartner);
    }

    /** internalStartTrade. A partner who has not offered yet is asked to; one who has keeps the
        state it is in, also when it has accepted already. */
    method InternalStartTrade(player: Player, tradePartner: Player, tradeItem: Item) returns (started: bool)
      requires Valid() && player in players && tradePartner in players && player != tradePartner
      requires tradeItem in items && Unrelated(tradeItem)
      modifies this`tradeItems, player, tradePartner, tradeItem`refCount
      ensures Valid() && started == old(MayStart(player, tradePartner))
      ensures started == old(Starts(player, tradePartner))
      ensures !started ==> tradeItems == old(tradeItems) && unchanged(player, tradePartner, tradeItem)
      ensures started ==>
        && player.tradeState == Initiated && player.tradePartner == tradePartner && player.tradeItem == tradeItem
        && tradePartner.tradePartner == player && tradePartner.tradeItem == old(tradePartner.tradeItem)
        && tradePartner.tradeState ==
          (if old(tradePartner.tradeState) == TradeNone then Acknowledge else old(tradePartner.tradeState))
        && tradeItems == old(tradeItems)[tradeItem := player.id] && tradeItem.refCount == old(tradeItem.refCount) + 1
    {
      assert player.Sound() && tradePartner.Sound();
      if player.tradeState != TradeNone && !(player.tradeState == Acknowledge && player.tradePartner == tradePartner) {
        return false;
      } else if tradePartner.tradeState != TradeNone && tradePartner.tradePartner != player {
        return false;
      }
      StartTrade(player, tradePartner, tradeItem);
      return true;
    }

    method StartTrade(player: Player, tradePartner: Player, tradeItem: Item)
      requires Valid() && player in players && tradePartner in players && player != tradePartner
      requires tradeItem in items && Unrelated(tradeItem) && MayStart(player, tradePartner)
      modifies this`tradeItems, player, tradePartner, tradeItem`refCount
      ensures Valid()
      ensures player.tradeState == Initiated && player.tradePartner == tradePartner && player.tradeItem == tradeItem
      ensures tradePartner.tradePartner == player && tradePartner.tradeItem == old(tradePartner.tradeItem)
      ensures tradePartner.tradeState ==
        if old(tradePartner.tradeState) == TradeNone then Acknowledge else old(tradePartner.tradeState)
      ensures tradeItems == old(tradeItems)[tradeItem := player.id] && tradeItem.refCount == old(tradeItem.refCount) + 1
    {
      assert player.Sound() && tradePartner.Sound();
      Apart(player, tradePartner);
      Offer(player, tradeItem, {player, tradePartner});
      Join(player, tradePartner);
    }

    /** The loop of playerRequestTrade over the items on offer. */
    method IsBeingTraded(tradeItem: Item) returns (traded: bool)
      ensures traded <==> !Unrelated(tradeItem)
    {
      var rest := tradeItems.Keys;
      while rest != {}
        invariant rest <= tradeItems.Keys
        invariant forall other | other in tradeItems.Keys && other !in rest ::
          tradeItem != other && (tradeItem, other) !in holding && (other, tradeItem) !in holding
        decreases rest
      {
        var other :| other in rest;
        if tradeItem == other || (tradeItem, other) in holding || (other, tradeItem) in holding {
          return true;
        }
        rest := rest - {other};
      }
      return false;
    }

    /** playerRequestTrade from where the item is found and in reach. */
    method PlayerRequestTrade(player: Player, tradePartner: Player, tradeItem: Item, holdingCount: nat, deny: bool)
      returns (started: bool)
      requires Valid() && player in players && tradePartner in players && tradeItem in items
      modifies this`tradeItems, player, tradePartner, tradeItem`refCount
      ensures Valid()
      ensures started <==> old(player != tradePartner && Unrelated(tradeItem) && holdingCount < 100 && !deny &&
        Starts(player, tradePartner))
      ensures !started ==> tradeItems == old(tradeItems) && unchanged(player, tradePartner, tradeItem)
      ensures started ==>
        && player.tradeState == Initiated && player.tradePartner == tradePartner && player.tradeItem == tradeItem
        && tradePartner.tradePartner == player && tradePartner.tradeItem == old(tradePartner.tradeItem)
        && tradePartner.tradeState ==
          (if old(tradePartner.tradeState) == TradeNone then Acknowledge else old(tradePartner.tradeState))
        && tradeItems == old(tradeItems)[tradeItem := player.id]
    {
      if tradePartner == player {
        return false;
      }
      var traded := IsBeingTraded(tradeItem);
      if traded || holdingCount + 1 > 100 || deny {
        return false;
      }
      started := InternalStartTrade(player, tradePartner, tradeItem);
    }

    ghost function Side(player: Player?): set<Item>
      reads player
    {
      if player == null || player.tradeItem == null then {} else {player.tradeItem}
    }

    ghost function Freed(player: Player?): seq<Item>
      reads player
    {
      if player == null || player.tradeItem == null then [] else [player.tradeItem]
    }

    method SetTradeState(player: Player, state: TradeState, ghost busy: set<Player>)
      requires Linked(busy) && player in busy
      modifies player`tradeState
      ensures Linked(busy) && player.tradeState == state
    {
      player.tradeState := state;
      forall p | p in players && p !in busy
        ensures p.Sound() && (p.tradePartner != null ==> p.tradePartner in players - busy)
      {
        assert old(p.Sound());
      }
    }

    /** The offer of the player's item ends: its reference goes to the list of those to be released. */
    method EndOffer(player: Player, ghost busy: set<Player>)
      requires Offers(busy) && Referenced() && player in players && player !in busy
      modifies this`tradeItems, this`releaseThings
      ensures Offers(busy + {player}) && Referenced() && tradeItems == old(tradeItems) - Side(player)
      ensures releaseThings == old(releaseThings) + Freed(player)
    {
      if player.tradeItem != null && player.tradeItem in tradeItems {
        releaseThings := releaseThings + [player.tradeItem];
        tradeItems := tradeItems - {player.tradeItem};
      }
      forall item | item in tradeItems ensures Offered(item, busy + {player}) {
        assert old(Offered(item, busy));
      }
    }

    /** A busy player whose offer has ended is idle again. */
    method Reset(player: Player, ghost busy: set<Player>, ghost ended: set<Player>)
      requires Linked(busy) && Offers(ended) && Referenced() && player in busy && player in ended && player in players
      modifies player
      ensures Linked(busy) && Offers(ended) && Referenced() && player.Idle()
    {
      player.tradeState := TradeNone;
      player.tradeItem := null;
      player.tradePartner := null;
      forall p | p in players && p !in busy
        ensures p.Sound() && (p.tradePartner != null ==> p.tradePartner in players - busy)
      {
        assert old(p.Sound());
      }
      forall item | item in tradeItems ensures Offered(item, ended) {
        assert old(Offered(item, ended));
      }
    }

    /** The part of internalCloseTrade for one of the two. */
    method CloseSide(player: Player, ghost busy: set<Player>, ghost ended: set<Player>)
      requires Linked(busy) && Offers(ended) && Referenced() && player in busy && player !in ended && player in players
      modifies this`tradeItems, this`releaseThings, player
      ensures Linked(busy) && Offers(ended + {player}) && Referenced() && player.Idle()
      ensures tradeItems == old(tradeItems) - old(Side(player)) &&
        releaseThings == old(releaseThings) + old(Freed(player))
    {
      EndOffer(player, ended);
      Reset(player, busy, ended + {player});
    }

    lemma BothIdle(a: Player, b: Player)
      requires Within({a, b}) && a.Idle() && b.Idle() && a in players && b in players
      ensures Valid()
    {
      Together(a, b);
      forall item | item in tradeItems ensures Offered(item, {}) {
        assert Offered(item, {a, b});
      }
    }

    /** In the middle of playerAcceptTrade, while the items change hands. */
    ghost predicate Transferring(player: Player)
      reads this, players, items
    {
      && player in players && player.tradePartner != null && player.tradePartner in players
      && Within({player, player.tradePartner})
      && player.tradePartner.tradePartner == player
      && player.tradeState == Transfer && player.tradePartner.tradeState == Transfer
    }

    /** The rest of internalCloseTrade when there is a partner. */
    method CloseSides(player: Player, other: Player)
      requires Valid() && player in players && other in players && Pair(player, other) && player != other
      modifies this`tradeItems, this`releaseThings, player, other
      ensures Valid() && player.Idle() && other.Idle()
      ensures tradeItems == old(tradeItems) - old(Side(player)) - old(Side(other))
      ensures releaseThings == old(releaseThings) + old(Freed(player)) + old(Freed(other))
    {
      Apart(player, other);
      CloseSide(player, {player, other}, {});
      assert {} + {player} == {player} && {player} + {other} == {player, other};
      CloseSide(other, {player, other}, {player});
      BothIdle(player, other);
    }

    /** The rest of internalCloseTrade for a player without partner. */
    method CloseAlone(player: Player)
      requires Valid() && player in players && player.Idle()
      modifies this`tradeItems, this`releaseThings, player
      ensures Valid() && player.Idle() && tradeItems == old(tradeItems) && releaseThings == old(releaseThings)
    {
      assert {player, player} == {player} && {} + {player} == {player};
      Apart(player, player);
      CloseSide(player, {player}, {});
      BothIdle(player, player);
    }

    /** internalCloseTrade: both sides are idle again and their items off the list. In the middle of
        a transfer nothing happens. */
    method InternalCloseTrade(player: Player)
      requires player in players && (Valid() || Transferring(player))
      modifies this`tradeItems, this`releaseThings, player
      modifies if player.tradePartner == null then {} else {player.tradePartner}
      ensures old(player.tradeState == Transfer) ==>
        unchanged(this, player) && (old(player.tradePartner) != null ==> unchanged(old(player.tradePartner)))
      ensures old(player.tradeState != Transfer) ==>
        && Valid() && player.Idle() && (old(player.tradePartner) != null ==> old(player.tradePartner).Idle())
        && tradeItems == old(tradeItems) - old(Side(player)) - old(Side(player.tradePartner))
        && releaseThings == old(releaseThings + Freed(player) + Freed(player.tradePartner))
    {
      assert Valid() ==> player.Sound();
      var tradePartner := player.tradePartner;
      assert Valid() && tradePartner != null ==> tradePartner.Sound();
      if (tradePartner != null && tradePartner.tradeState == Transfer) || player.tradeState == Transfer {
        return;
      }
      if tradePartner == null {
        CloseAlone(player);
      } else {
        CloseSides(player, tradePartner);
      }
    }

    /** Whether playerAcceptTrade takes the player's word. */
    predicate MayAccept(player: Player, reachable: bool)
      reads player
    {
      (player.tradeState == Acknowledge || player.tradeState == Initiated) && reachable
    }

    /** From the point where both have accepted: the offers end, then the items change hands. */
    method Exchange(player: Player, tradePartner: Player, possible: bool, hooks: seq<bool>) returns (success: bool)
      requires player in players && tradePartner in players && player != tradePartner
      requires player.tradePartner == tradePartner && tradePartner.tradePartner == player
      requires Linked({player, tradePartner}) && Offers({}) && Referenced()
      modifies this`tradeItems, this`releaseThings, player, tradePartner
      ensures Valid() && player.Idle() && tradePartner.Idle()
      ensures tradeItems == old(tradeItems - Side(player) - Side(tradePartner))
      ensures releaseThings == old(releaseThings + Freed(player) + Freed(tradePartner))
      ensures success == old(player.tradeItem != null && tradePartner.tradeItem != null && possible)
    {
      EndOffers(player, tradePartner);
      success := player.tradeItem != null && tradePartner.tradeItem != null && possible;
      HandOver(player, tradePartner, hooks);
    }

    /** The items move, with what that provokes, and then both are reset. */
    method HandOver(player: Player, tradePartner: Player, hooks: seq<bool>)
      requires Transferring(player) && player.tradePartner == tradePartner && player != tradePartner
      modifies this`tradeItems, this`releaseThings, player, tradePartner
      ensures Valid() && player.Idle() && tradePartner.Idle()
      ensures tradeItems == old(tradeItems) && releaseThings == old(releaseThings)
    {
      Hooks(player, tradePartner, hooks);
      ResetBoth(player, tradePartner);
    }

    method ResetBoth(player: Player, tradePartner: Player)
      requires player in players && tradePartner in players && player != tradePartner && Within({player, tradePartner})
      modifies player, tradePartner
      ensures Valid() && player.Idle() && tradePartner.Idle()
    {
      Reset(player, {player, tradePartner}, {player, tradePartner});
      Reset(tradePartner, {player, tradePartner}, {player, tradePartner});
      BothIdle(player, tradePartner);
    }

    /** Both are marked as transferring and lose their entries in tradeItems. */
    method EndOffers(player: Player, tradePartner: Player)
      requires player in players && tradePartner in players && player != tradePartner
      requires Linked({player, tradePartner}) && Offers({}) && Referenced()
      modifies this`tradeItems, this`releaseThings, player`tradeState, tradePartner`tradeState
      ensures Within({player, tradePartner}) && player.tradeState == tradePartner.tradeState == Transfer
      ensures tradeItems == old(tradeItems - Side(player) - Side(tradePartner))
      ensures releaseThings == old(releaseThings + Freed(player) + Freed(tradePartner))
    {
      SetTradeState(player, Transfer, {player, tradePartner});
      SetTradeState(tradePartner, Transfer, {player, tradePartner});
      EndBoth(player, tradePartner);
    }

    method EndBoth(player: Player, tradePartner: Player)
      requires player in players && tradePartner in players && player != tradePartner && Offers({}) && Referenced()
      modifies this`tradeItems, this`releaseThings
      ensures Offers({player, tradePartner}) && Referenced()
      ensures tradeItems == old(tradeItems - Side(player) - Side(tradePartner))
      ensures releaseThings == old(releaseThings + Freed(player) + Freed(tradePartner))
    {
      EndOffer(player, {});
      assert {} + {player} == {player} && {player} + {tradePartner} == {player, tradePartner};
      EndOffer(tradePartner, {player});
    }

    /** While the items move, attempts to close the trade from either side change nothing. */
    method Hooks(player: Player, tradePartner: Player, hooks: seq<bool>)
      requires Transferring(player) && player.tradePartner == tradePartner
      modifies this`tradeItems, this`releaseThings, player, tradePartner
      ensures unchanged(this, player, tradePartner)
    {
      assert {player, tradePartner} == {tradePartner, player};
      for k := 0 to |hooks|
        invariant unchanged(this, player, tradePartner)
      {
        InternalCloseTrade(if hooks[k] then player else tradePartner);
      }
    }

    /** playerAcceptTrade. `deny` is a script's answer, `possible` whether the queries of the transfer
        all succeed, and `hooks` lists the attempts to close the trade that moving the items provokes. */
    method PlayerAcceptTrade(player: Player, reachable: bool, deny: bool, possible: bool, hooks: seq<bool>)
      returns (success: bool)
      requires Valid() && player in players
      modifies this`tradeItems, this`releaseThings, player
      modifies if player.tradePartner == null then {} else {player.tradePartner}
      ensures Valid()
      ensures !reachable || old(player.tradeState != Acknowledge && player.tradeState != Initiated) ==>
        && !success && unchanged(this, player)
        && (old(player.tradePartner) != null ==> unchanged(old(player.tradePartner)))
      ensures old(player.tradeState == Acknowledge || player.tradeState == Initiated) ==>
        && old(player.tradePartner) != null
        && (reachable && (old(player.tradePartner.tradeState) != Accepted || deny) ==>
              && !success && unchanged(this, player`tradePartner, player`tradeItem, old(player.tradePartner))
              && player.tradeState == Accepted)
        && (reachable && old(player.tradePartner.tradeState) == Accepted && !deny ==>
              && player.Idle() && old(player.tradePartner).Idle()
              && tradeItems == old(tradeItems) - old(Side(player)) - old(Side(player.tradePartner))
              && releaseThings == old(releaseThings + Freed(player) + Freed(player.tradePartner))
              && success == old(player.tradeItem != null && player.tradePartner.tradeItem != null && possible))
    {
      assert player.Sound();
      var tradePartner := player.tradePartner;
      if player.tradeState != Acknowledge && player.tradeState != Initiated {
        return false;
      }
      assert tradePartner.Sound();
      if !reachable {
        return false;
      }
      Apart(player, tradePartner);
      SetTradeState(player, Accepted, {player, tradePartner});
      if tradePartner.tradeState != Accepted || deny {
        Together(player, tradePartner);
        return false;
      }
      success := Exchange(player, tradePartner, possible, hooks);
    }

    /** One player offers, the other, who is asked to, answers. */
    method OfferBoth(player: Player, partner: Player, item: Item, other: Item)
      requires Valid() && player in players && partner in players && item in items && other in items
      requires player != partner && player.tradeState == TradeNone && partner.tradeState == TradeNone
      requires Unrelated(item) && Unrelated(other) && item != other
      requires (item, other) !in holding && (other, item) !in holding
      modifies this`tradeItems, player, partner, item`refCount, other`refCount
      ensures Valid() && player.tradeState == partner.tradeState == Initiated && player.tradePartner == partner
      ensures player.tradeItem == item && partner.tradeItem == other
      ensures tradeItems == old(tradeItems)[item := player.id][other := partner.id]
    {
      assert player.Sound() && partner.Sound();
      var first := PlayerRequestTrade(player, partner, item, 0, false);
      assert Unrelated(other);
      var second := PlayerRequestTrade(partner, player, other, 0, false);
    }

    /** Both accept. */
    method AcceptBoth(player: Player, partner: Player) returns (success: bool)
      requires Valid() && player in players && player.tradePartner == partner && partner in players
      requires player.tradeState == partner.tradeState == Initiated
      modifies this`tradeItems, this`releaseThings, player, partner
      ensures Valid() && success && player.Idle() && partner.Idle()
      ensures tradeItems == old(tradeItems) - old(Side(player)) - old(Side(partner))
      ensures releaseThings == old(releaseThings + Freed(player) + Freed(partner))
    {
      assert player.Sound() && partner.Sound();
      var early := PlayerAcceptTrade(partner, true, false, true, []);
      success := PlayerAcceptTrade(player, true, false, true, []);
    }

    /** A trade from beginning to end succeeds, and leaves nothing behind but the two references that wait
        to be released. */
    method WholeTrade(player: Player, partner: Player, item: Item, other: Item) returns (success: bool)
      requires Valid() && player in players && partner in players && item in items && other in items
      requires player != partner && player.tradeState == TradeNone && partner.tradeState == TradeNone
      requires Unrelated(item) && Unrelated(other) && item != other
      requires (item, other) !in holding && (other, item) !in holding
      modifies this`tradeItems, this`releaseThings, player, partner, item`refCount, other`refCount
      ensures Valid() && success && player.Idle() && partner.Idle()
      ensures tradeItems == old(tradeItems) && releaseThings == old(releaseThings) + [item, other]
    {
      ghost var before := tradeItems;
      OfferBoth(player, partner, item, other);
      assert Side(player) == {item} && Side(partner) == {other};
      assert releaseThings + Freed(player) + Freed(partner) == releaseThings + [item, other];
      success := AcceptBoth(player, partner);
      AddedAndTakenBack(before, item, player.id, other, partner.id);
    }

    lemma AddedAndTakenBack(before: map<Item, nat>, item: Item, id: nat, other: Item, otherId: nat)
      requires item !in before && other !in before
      ensures before[item := id][other := otherId] - {item} - {other} == before
    {
    }

    /** The part of cleanup that releases references: what is left on each item is one reference while
        it is on offer. */
    method Cleanup()
      requires Valid()
      modifies this`releaseThings, items`refCount
      ensures Valid() && releaseThings == []
      ensures forall item | item in items :: item.refCount == item.others + if item in tradeItems then 1 else 0
    {
      while releaseThings != []
        invariant Valid()
        decreases |releaseThings|
      {
        Release();
      }
    }

    method Release()
      requires Valid() && releaseThings != []
      modifies this`releaseThings, items`refCount
      ensures Valid() && releaseThings == old(releaseThings[1..])
    {
      assert Linked({}) && Offers({});
      var item := releaseThings[0];
      assert releaseThings == [item] + releaseThings[1..];
      item.refCount := item.refCount - 1;
      releaseThings := releaseThings[1..];
    }

    ghost predicate Concerns(request: Request) {
      match request
      case Ask(player, partner, item, _, _) => player in players && partner in players && item in items
      case Accept(player, _, _, _, _) => player in players
      case Close(player) => player in players
      case Clean => true
    }

    /** What a script's refusal leaves behind: both sides have accepted. */
    ghost predicate Refused(player: Player)
      reads player, player.tradePartner
    {
      && player.tradePartner != null && player.tradePartner != player && player.tradePartner.tradePartner == player
      && player.tradeState == Accepted && player.tradePartner.tradeState == Accepted
    }

    predicate Closes(request: Request, player: Player, partner: Player?) {
      request.Close? && (request.player == player || request.player == partner)
    }

    /** One who refused, or was refused, is so still, with the same partner and item. */
    twostate predicate StillRefused(player: Player)
      reads player, player.tradePartner
    {
      && Refused(player)
      && player.tradePartner == old(player.tradePartner) && player.tradeItem == old(player.tradeItem)
    }

    method HandleAsk(player: Player, partner: Player, item: Item, holdingCount: nat, deny: bool)
      requires Valid() && player in players && partner in players && item in items
      modifies this`tradeItems, player, partner, item`refCount
      ensures Valid()
      ensures forall p | p in players && old(Refused(p)) :: StillRefused(p)
    {
      assert forall p | p in players :: p.Sound();
      var _ := PlayerRequestTrade(player, partner, item, holdingCount, deny);
    }

    method HandleAccept(player: Player, reachable: bool, deny: bool, possible: bool, hooks: seq<bool>)
      requires Valid() && player in players
      modifies this`tradeItems, this`releaseThings, player
      modifies if player.tradePartner == null then {} else {player.tradePartner}
      ensures Valid()
      ensures forall p | p in players && old(Refused(p)) :: StillRefused(p)
    {
      assert forall p | p in players :: p.Sound();
      var _ := PlayerAcceptTrade(player, reachable, deny, possible, hooks);
    }

    method HandleClose(player: Player)
      requires Valid() && player in players
      modifies this`tradeItems, this`releaseThings, player
      modifies if player.tradePartner == null then {} else {player.tradePartner}
      ensures Valid()
      ensures forall p | p in players && old(Refused(p)) && player != p && player != old(p.tradePartner) ::
        StillRefused(p)
    {
      assert forall p | p in players :: p.Sound();
      InternalCloseTrade(player);
    }

    method Handle(request: Request)
      requires Valid() && Concerns(request)
      modifies this`tradeItems, this`releaseThings, players, items`refCount
      ensures Valid()
      ensures forall p | p in players && old(Refused(p)) && !Closes(request, p, old(p.tradePartner)) :: StillRefused(p)
    {
      assert forall p | p in players :: p.Sound();
      match request
      case Ask(player, partner, item, holdingCount, deny) => HandleAsk(player, partner, item, holdingCount, deny);
      case Accept(player, reachable, deny, possible, hooks) => HandleAccept(player, reachable, deny, possible, hooks);
      case Close(player) => HandleClose(player);
      case Clean => Cleanup();
    }

    /** Any requests in any order, from players who are all idle at the end: nothing is on offer any
        more and, after a clean-up, every reference has been given back. */
    method Run(requests: seq<Request>)
      requires Valid() && forall request | request in requests :: Concerns(request)
      modifies this`tradeItems, this`releaseThings, players, items`refCount
      ensures Valid() && releaseThings == []
      ensures (forall p | p in players :: p.tradeState == TradeNone) ==>
        tradeItems == map[] && forall item | item in items :: item.refCount == item.others
    {
      for k := 0 to |requests|
        invariant Valid()
      {
        Handle(requests[k]);
      }
      Cleanup();
      if forall p | p in players :: p.tradeState == TradeNone {
        AllGivenBack();
      }
    }

    /** Once nobody trades, every reference a trade took has been given back. */
    lemma AllGivenBack()
      requires Valid() && releaseThings == [] && forall p | p in players :: p.tradeState == TradeNone
      ensures tradeItems == map[] && forall item | item in items :: item.refCount == item.others
    {
      forall item ensures item !in tradeItems {
        assert item in tradeItems ==> Offered(item, {});
        assert forall p | p in players :: p.Sound();
      }
    }

    // -------------------------------------------------------------- after a refusal

    /** Between partners some further word, from either and to whomever, is taken if and only if they
        have not both accepted; and nobody else can address them. */
    lemma RefusedIsStuck(player: Player, partner: Player)
      requires Valid() && player in players && player.tradePartner == partner
      ensures Refused(player) <==>
        && !MayAccept(player, true) && !MayAccept(partner, true)
        && forall other | other in players :: !MayStart(player, other) && !MayStart(partner, other)
      ensures forall other | other in players && (MayStart(other, player) || MayStart(other, partner)) ::
        other == player || other == partner
    {
      assert player.Sound() && partner.Sound();
    }

    /** And they stay so, with the same items on offer, whatever is asked for by anybody, until one of
        the two closes the trade. */
    method StaysRefused(player: Player, partner: Player, requests: seq<Request>)
      requires Valid() && player in players && Refused(player) && player.tradePartner == partner
      requires forall request | request in requests :: Concerns(request) && !Closes(request, player, partner)
      modifies this`tradeItems, this`releaseThings, players, items`refCount
      ensures Valid() && Refused(player) && player.tradePartner == partner
      ensures Side(player) == old(Side(player)) && Side(partner) == old(Side(partner))
      ensures {} != Side(player) + Side(partner) <= tradeItems.Keys
    {
      for k := 0 to |requests|
        invariant Valid() && Refused(player) && player.tradePartner == partner
        invariant player.tradeItem == old(player.tradeItem) && partner.tradeItem == old(partner.tradeItem)
      {
        assert player.Sound() && Refused(partner);
        Handle(requests[k]);
      }
      assert player.Sound() && partner.Sound();
    }
  }
}
