/** src/fileloader.cpp and src/fileloader.h as objects: the block cache, the byte reader
    on top of it, the node parser, the in-place unescaper and the writer.

    The file is a byte sequence held by the loader; opening, seeking and reading it
    succeed as the C library promises for a regular file of less than 2 GB. */
module FileLoader {
  import opened Common
  import opened NodeFormat
  import opened BitMask

  const CACHE_BLOCKS := 3
  const NO_VALID_CACHE := 0xFFFF_FFFF
  const FILE_LIMIT := 0x8000_0000

  datatype Error =
    | ErrorNone | ErrorInvalidVersion | ErrorCanNotOpen | ErrorEof | ErrorSeek | ErrorInvalidFormat | ErrorCache

  /** One cache block: a window of the file starting at `base`. */
  datatype Slot = Slot(loaded: bool, base: nat, data: seq<Byte>)

  /** What reading `count` bytes at `pos` yields; short, possibly empty, at the end of the file. */
  function Window(file: seq<Byte>, pos: nat, count: nat): (w: seq<Byte>) {
    if pos >= |file| then []
    else if pos + count <= |file| then file[pos..pos + count]
    else file[pos..]
  }

  function WindowLength(file: seq<Byte>, pos: nat, count: nat): nat {
    if pos >= |file| then 0
    else if pos + count <= |file| then count
    else |file| - pos
  }

  /** A loaded slot holds exactly the file's bytes from its base on. */
  ghost predicate Holds(slot: Slot, file: seq<Byte>, cacheSize: nat) {
    slot.loaded ==>
      && |slot.data| == WindowLength(file, slot.base, cacheSize)
      && slot.base + |slot.data| <= (if |slot.data| > 0 then |file| else slot.base)
      && forall k | 0 <= k < |slot.data| :: slot.data[k] == file[slot.base + k]
  }

  /** First byte of the block that `pos` belongs to. */
  function BlockBase(pos: nat, cacheSize: nat): nat
    requires cacheSize > 0
  {
    AndNot(pos, cacheSize - 1)
  }

  /** Every position falls inside its own block, also for sizes that are no power of two. */
  lemma BlockCovers(pos: nat, cacheSize: nat)
    requires cacheSize > 0
    ensures BlockBase(pos, cacheSize) <= pos < BlockBase(pos, cacheSize) + cacheSize
  {
    AndNotBounds(pos, cacheSize - 1);
  }

  function CacheSizeFor(fileSize: nat): nat {
    var most := if fileSize / 20 > 8192 then fileSize / 20 else 8192;
    AndNot(if most < 32768 then most else 32768, 0x1FFF)
  }

  lemma CacheSizeInRange(fileSize: nat)
    ensures 1 <= CacheSizeFor(fileSize) <= 32768
  {
    var most := if fileSize / 20 > 8192 then fileSize / 20 else 8192;
    AndNotBounds(if most < 32768 then most else 32768, 0x1FFF);
  }

  function Pow2(k: nat): (r: nat)
    ensures r > 0
  {
    if k == 0 then 1 else 2 * Pow2(k - 1)
  }

  lemma {:induction false} ThreeTimesPower(k: nat)
    ensures AndNot(3 * Pow2(k), 3 * Pow2(k) - 1) == Pow2(k)
    ensures AndNot(3 * Pow2(k), Pow2(k) - 1) == 3 * Pow2(k)
  {
    if k == 0 {
      assert AndNot(1, 1) == 0 && AndNot(1, 0) == 1;
    } else {
      ThreeTimesPower(k - 1);
    }
  }

  /** The cache size 24576 does occur, and there blocks overlap: byte 24576 does not start
      a block but lives in the one based at 8192. */
  lemma OddCacheSize()
    ensures CacheSizeFor(491520) == 24576
    ensures BlockBase(24576, 24576) == 8192
  {
    assert Pow2(13) == 8192;
    ThreeTimesPower(13);
  }

  // ---------------------------------------------------------------- reading the flat file

  datatype ReadOp = Seek(at: nat) | Tell | One | Many(size: nat, from: nat)

  datatype Answer = Bytes(bytes: seq<Byte>) | Place(at: int)

  predicate InRange(file: seq<Byte>, op: ReadOp) {
    match op
    case Seek(at) => at <= |file|
    case Tell => true
    case One => true
    case Many(size, from) => from + size <= |file|
  }

  /** What one operation answers on the flat file from `pos`, and where it leaves the reader. */
  function FlatStep(file: seq<Byte>, pos: nat, op: ReadOp): (r: (Answer, nat))
    requires InRange(file, op)
  {
    match op
    case Seek(at) => (Bytes([]), at)
    case Tell => (Place(pos - 1), pos)
    case One => if pos < |file| then (Bytes([file[pos]]), pos + 1) else (Bytes([]), pos)
    case Many(size, from) => (Bytes(file[from..from + size]), from + size)
  }

  function FlatRun(file: seq<Byte>, pos: nat, ops: seq<ReadOp>): (r: seq<Answer>)
    requires forall op | op in ops :: InRange(file, op)
    decreases ops
  {
    if ops == [] then []
    else
      assert ops[0] in ops;
      var step := FlatStep(file, pos, ops[0]);
      [step.0] + FlatRun(file, step.1, ops[1..])
  }

  // ---------------------------------------------------------------- the node tree in memory

  class NodeStruct {
    var start: nat
    var propsSize: nat
    var kind: Byte
    var next: NodeStruct?
    var child: NodeStruct?
    ghost var tail: seq<Node>  // what this object and the siblings after it stand for

    constructor (ghost tail: seq<Node>)
      ensures start == 0 && propsSize == 0 && kind == 0 && next == null && child == null
      ensures this.tail == tail
    {
      start, propsSize, kind, next, child := 0, 0, 0, null, null;
      this.tail := tail;
    }

    /** All fields but `next` agree with `node`: the span of the file is the node's raw
        properties, and the child, an object of `ns`, stands for the node's children. */
    ghost predicate BodyAgrees(node: Node, file: seq<Byte>, ns: set<NodeStruct>)
      reads this`start, this`propsSize, this`kind, this`child, (if child == null then {} else {child})`tail
    {
      && kind == node.kind && propsSize == |node.props| && At(file, start + 2, node.props)
      && if child == null then node.children == [] else child in ns && child.tail == node.children
    }

    ghost predicate Agrees(file: seq<Byte>, ns: set<NodeStruct>)
      reads this, (if child == null then {} else {child})`tail, (if next == null then {} else {next})`tail
    {
      && tail != [] && BodyAgrees(tail[0], file, ns)
      && if next == null then |tail| == 1 else next in ns && next.tail == tail[1..]
    }
  }

  // ---------------------------------------------------------------- the loader

  class FileLoader {
    const file: seq<Byte>
    var filePos: nat
    var lastError: Error
    var root: NodeStruct?
    var buffer: array<Byte>
    var useCache: bool
    var cacheSize: nat
    var cacheIndex: nat
    var cacheOffset: nat
    const slots: array<Slot>

    /** The position in the flat file that the next byte comes from. */
    ghost var pos: nat

    ghost predicate CacheOk()
      reads this, slots
    {
      && slots.Length == CACHE_BLOCKS
      && |file| < FILE_LIMIT
      && 1 <= cacheSize <= 32768
      && (forall i | 0 <= i < CACHE_BLOCKS :: Holds(slots[i], file, cacheSize))
    }

    /** The reader has a position: it always does without a cache, and with one after the first seek. */
    ghost predicate Ready()
      reads this
    {
      useCache ==> cacheIndex != NO_VALID_CACHE
    }

    ghost predicate Valid()
      reads this, slots
    {
      && CacheOk()
      && (cacheIndex != NO_VALID_CACHE ==> cacheIndex < CACHE_BLOCKS && slots[cacheIndex].loaded)
      && (Ready() ==> pos == if useCache then slots[cacheIndex].base + cacheOffset else filePos)
    }

    constructor (file: seq<Byte>)
      requires |file| < FILE_LIMIT
      ensures Valid() && fresh(slots) && fresh(buffer) && this.file == file
      ensures !useCache && cacheIndex == NO_VALID_CACHE && pos == 0
      ensures forall i | 0 <= i < CACHE_BLOCKS :: !slots[i].loaded
      ensures buffer.Length == 1024
    {
      this.file := file;
      filePos, pos, lastError, root := 0, 0, ErrorNone, null;
      buffer := new Byte[1024];
      useCache, cacheSize, cacheIndex, cacheOffset := false, 1, NO_VALID_CACHE, 0;
      slots := new Slot[CACHE_BLOCKS](i => Slot(false, 0, []));
    }

    // -------------------------------------------------------------- cache

    /** The block in the slot begins more than two blocks before or behind that of `at`. */
    ghost predicate Far(i: int, at: nat)
      requires slots.Length == CACHE_BLOCKS && 0 <= i < CACHE_BLOCKS && cacheSize > 0
      reads this`cacheSize, slots
    {
      var base := BlockBase(at, cacheSize);
      slots[i].base + 2 * cacheSize < base || base + 2 * cacheSize < slots[i].base
    }

    /** The slot is the first that is free; if none is, the first that is far away; else the first. */
    ghost predicate Replaceable(r: int, at: nat)
      requires slots.Length == CACHE_BLOCKS && 0 <= r < CACHE_BLOCKS && cacheSize > 0
      reads this`cacheSize, slots
    {
      if !slots[r].loaded then forall i | 0 <= i < r :: slots[i].loaded
      else
        && (forall i | 0 <= i < CACHE_BLOCKS :: slots[i].loaded)
        && if Far(r, at) then forall i | 0 <= i < r :: !Far(i, at)
           else r == 0 && forall i | 0 <= i < CACHE_BLOCKS :: !Far(i, at)
    }

    /** The two loops that look for a slot. */
    method ChooseSlot(at: nat) returns (loading: nat)
      requires slots.Length == CACHE_BLOCKS && cacheSize > 0
      ensures loading < CACHE_BLOCKS && Replaceable(loading, at)
    {
      for i := 0 to CACHE_BLOCKS
        invariant forall j | 0 <= j < i :: slots[j].loaded
      {
        if !slots[i].loaded {
          return i;
        }
      }
      var basePos := BlockBase(at, cacheSize);
      for i := 0 to CACHE_BLOCKS
        invariant forall j | 0 <= j < i :: !Far(j, at)
      {
        var b := slots[i].base;
        if (if b > basePos then b - basePos else basePos - b) > 2 * cacheSize {
          return i;
        }
      }
      return 0;
    }

    /** Brings the block of `at` into a free slot, else into one far away, else into slot 0. */
    method LoadCacheBlock(at: nat) returns (r: int)
      requires CacheOk() && useCache
      modifies this`filePos, this`lastError, slots
      ensures CacheOk()
      ensures -1 <= r < CACHE_BLOCKS
      ensures at <= |file| ==> r != -1
      ensures r != -1 ==> slots[r].loaded && slots[r].base == BlockBase(at, cacheSize)
      ensures forall i | 0 <= i < CACHE_BLOCKS && old(slots[i].loaded) :: slots[i].loaded
      ensures r != -1 ==> old(Replaceable(r, at)) && forall i | 0 <= i < CACHE_BLOCKS && i != r ::
        slots[i] == old(slots[i])
    {
      BlockCovers(at, cacheSize);
      var basePos := BlockBase(at, cacheSize);
      var loading := ChooseSlot(at);
      var data := Window(file, basePos, cacheSize);
      filePos := basePos + |data|;
      slots[loading] := Slot(slots[loading].loaded, basePos, data);
      if |data| < at - basePos {
        lastError := ErrorSeek;
        return -1;
      }
      slots[loading] := Slot(true, basePos, data);
      return loading;
    }

    method GetCacheBlock(at: nat) returns (r: nat)
      requires CacheOk() && useCache
      modifies this`filePos, this`lastError, slots
      ensures CacheOk()
      ensures r < CACHE_BLOCKS || r == NO_VALID_CACHE
      ensures at <= |file| ==> r != NO_VALID_CACHE
      ensures r != NO_VALID_CACHE ==> slots[r].loaded && slots[r].base == BlockBase(at, cacheSize)
      ensures forall i | 0 <= i < CACHE_BLOCKS && old(slots[i].loaded) :: slots[i].loaded
      ensures forall i | 0 <= i < CACHE_BLOCKS && old(slots[i].loaded && slots[i].base == BlockBase(at, cacheSize)) ::
        slots[..] == old(slots[..]) && filePos == old(filePos)
    {
      var basePos := BlockBase(at, cacheSize);
      for i := 0 to CACHE_BLOCKS
        invariant forall j | 0 <= j < i :: !(slots[j].loaded && slots[j].base == basePos)
      {
        if slots[i].loaded && slots[i].base == basePos {
          return i;
        }
      }
      var loaded := LoadCacheBlock(at);
      return if loaded == -1 then NO_VALID_CACHE else loaded;
    }

    /** With a cache, makes sure that the block in use has the byte at the position, if the file has. */
    method NextBlock() returns (ok: bool)
      requires Valid() && useCache && cacheIndex != NO_VALID_CACHE
      modifies this`filePos, this`lastError, this`cacheIndex, this`cacheOffset, this`pos, slots
      ensures Valid() && cacheIndex != NO_VALID_CACHE && ok == (old(pos) < |file|)
      ensures old(pos) <= |file| ==> pos == old(pos)
      ensures ok ==> cacheOffset < |slots[cacheIndex].data| && slots[cacheIndex].data[cacheOffset] == file[pos]
    {
      ok := true;
      if cacheOffset >= |slots[cacheIndex].data| {
        var at := cacheOffset + slots[cacheIndex].base;
        BlockCovers(at, cacheSize);
        var tmp := GetCacheBlock(at);
        if tmp == NO_VALID_CACHE {
          pos := slots[cacheIndex].base + cacheOffset;
          return false;
        }
        cacheIndex := tmp;
        cacheOffset := at - slots[cacheIndex].base;
        ok := cacheOffset < |slots[cacheIndex].data|;
      }
    }

    /** Reads one byte. The cache cannot be told from the flat file. */
    method ReadByte() returns (ok: bool, value: Byte)
      requires Valid()
      modifies this`filePos, this`lastError, this`cacheIndex, this`cacheOffset, this`pos, slots
      ensures Valid() && Ready() == old(Ready())
      ensures ok == (Ready() && old(pos) < |file|)
      ensures ok ==> value == file[old(pos)] && pos == old(pos) + 1
      ensures !ok && old(pos) <= |file| ==> pos == old(pos)
    {
      value := 0;
      if useCache {
        if cacheIndex == NO_VALID_CACHE {
          lastError := ErrorCache;
          return false, value;
        }
        ok := NextBlock();
        if ok {
          value := slots[cacheIndex].data[cacheOffset];
          cacheOffset := cacheOffset + 1;
          pos := pos + 1;
        }
        return;
      }
      if filePos < |file| {
        value := file[filePos];
        filePos := filePos + 1;
        pos := filePos;
        return true, value;
      }
      lastError := ErrorEof;
      return false, value;
    }

    /** Moves the reader. A position beyond the end may be refused or may read as end of file. */
    method SafeSeek(at: nat) returns (ok: bool)
      requires Valid()
      modifies this`filePos, this`lastError, this`cacheIndex, this`cacheOffset, this`pos, slots
      ensures Valid() && (ok ==> Ready() && pos == at)
      ensures old(Ready()) ==> Ready()
      ensures at <= |file| ==> ok
    {
      if useCache {
        BlockCovers(at, cacheSize);
        var i := GetCacheBlock(at);
        if i == NO_VALID_CACHE {
          pos := if Ready() then slots[cacheIndex].base + cacheOffset else pos;
          return false;
        }
        cacheIndex := i;
        cacheOffset := at - slots[i].base;
      } else {
        filePos := at;
      }
      pos := at;
      return true;
    }

    /** The position of the byte read last. */
    method SafeTell() returns (ok: bool, at: int)
      requires Valid()
      modifies this`lastError
      ensures Valid()
      ensures ok == Ready()
      ensures ok ==> at == pos - 1
    {
      if useCache {
        if cacheIndex == NO_VALID_CACHE {
          lastError := ErrorCache;
          return false, 0;
        }
        return true, slots[cacheIndex].base + cacheOffset - 1;
      }
      return true, filePos - 1;
    }

    /** One round of ReadBytes: what the block of `at` holds, at most `remain` bytes of it. At the very
        end of the file a round gets nowhere, and the source then loops for ever. */
    method CopyFromBlock(dst: array<Byte>, bufferPos: nat, at: nat, remain: nat) returns (ok: bool, reading: nat)
      requires Valid() && useCache && bufferPos + remain <= dst.Length && at <= |file|
      modifies this`filePos, this`lastError, this`cacheIndex, this`cacheOffset, this`pos, slots, dst
      ensures Valid() && Ready() && ok && reading <= remain && at + reading <= |file|
      ensures reading == 0 <==> remain == 0 || at == |file|
      ensures forall k | bufferPos <= k < bufferPos + reading :: dst[k] == file[at + k - bufferPos]
      ensures forall k | 0 <= k < dst.Length && !(bufferPos <= k < bufferPos + reading) :: dst[k] == old(dst[k])
      ensures pos == at + reading
    {
      ok, reading := false, 0;
      BlockCovers(at, cacheSize);
      var i := GetCacheBlock(at);
      if i == NO_VALID_CACHE {
        return;
      }
      cacheIndex := i;
      cacheOffset := at - slots[i].base;
      var data := slots[i].data;
      reading := if remain < |data| - cacheOffset then remain else |data| - cacheOffset;
      var piece := data[cacheOffset..cacheOffset + reading];
      assert forall j | 0 <= j < reading :: piece[j] == file[at + j];
      CopyInto(dst, bufferPos, piece);
      cacheOffset := cacheOffset + reading;
      pos := at + reading;
      ok := true;
    }

    /** memcpy, and what fread does to the buffer. */
    method CopyInto(dst: array<Byte>, bufferPos: nat, data: seq<Byte>)
      requires bufferPos + |data| <= dst.Length
      modifies dst
      ensures forall k | 0 <= k < dst.Length ::
        dst[k] == if bufferPos <= k < bufferPos + |data| then data[k - bufferPos] else old(dst[k])
    {
      forall k | bufferPos <= k < bufferPos + |data| {
        dst[k] := data[k - bufferPos];
      }
    }

    /** The loop of ReadBytes across cache blocks: every round makes progress, because the block of `at`
        has bytes from `at` on. */
    method ReadBlocks(dst: array<Byte>, size: nat, from: nat) returns (ok: bool)
      requires Valid() && useCache && size <= dst.Length && from + size <= |file|
      modifies this`filePos, this`lastError, this`cacheIndex, this`cacheOffset, this`pos, slots, dst
      ensures Valid() && Ready() && ok && pos == from + size
      ensures forall k | 0 <= k < dst.Length :: dst[k] == if k < size then file[from + k] else old(dst[k])
    {
      var remain, bufferPos, at := size, 0, from;
      while true
        invariant Valid()
        invariant 0 <= bufferPos && 0 <= remain && bufferPos + remain == size && at == from + bufferPos
        invariant forall k | 0 <= k < dst.Length :: dst[k] == if k < bufferPos then file[from + k] else old(dst[k])
        decreases remain
      {
        var done, reading := CopyFromBlock(dst, bufferPos, at, remain);
        if !done {
          return false;
        }
        remain, bufferPos, at := remain - reading, bufferPos + reading, at + reading;
        if remain == 0 {
          break;
        }
      }
      return true;
    }

    /** Reads `size` bytes at `from`. Without a cache it fails exactly if the file ends before; with one
        it never does. */
    method ReadBytes(dst: array<Byte>, size: nat, from: nat) returns (ok: bool)
      requires Valid() && size <= dst.Length && (useCache ==> from + size <= |file|)
      modifies this`filePos, this`lastError, this`cacheIndex, this`cacheOffset, this`pos, slots, dst
      ensures Valid() && Ready() && ok == (size == 0 || from + size <= |file|)
      ensures !ok ==> lastError == ErrorEof
      ensures forall k | 0 <= k < dst.Length ::
        dst[k] == if k < size && from + k < |file| then file[from + k] else old(dst[k])
      ensures ok && size > 0 ==> dst[..size] == file[from..from + size]
      ensures ok ==> pos == from + size
    {
      if useCache {
        ok := ReadBlocks(dst, size, from);
        return;
      }
      var data := Window(file, from, size);
      filePos := from + |data|;
      pos := filePos;
      CopyInto(dst, 0, data);
      ok := |data| == size;
      if !ok {
        lastError := ErrorEof;
      }
    }

    method Perform(op: ReadOp) returns (answer: Answer)
      requires Valid() && Ready() && pos <= |file| && InRange(file, op)
      modifies this`filePos, this`lastError, this`cacheIndex, this`cacheOffset, this`pos, slots
      ensures Valid() && Ready() && pos <= |file|
      ensures (answer, pos) == FlatStep(file, old(pos), op)
    {
      answer := Bytes([]);
      match op {
        case Seek(at) =>
          var _ := SafeSeek(at);
        case Tell =>
          var _, at := SafeTell();
          answer := Place(at);
        case One =>
          var ok, byte := ReadByte();
          answer := Bytes(if ok then [byte] else []);
        case Many(size, from) =>
          var dst := new Byte[size];
          var _ := ReadBytes(dst, size, from);
          answer := Bytes(dst[..size]);
      }
    }

    /** Any run of reads, seeks and tells inside the file, under any cache size and from any cache
        contents, answers what the flat file answers. */
    method Replay(ops: seq<ReadOp>) returns (out: seq<Answer>)
      requires Valid() && Ready() && pos <= |file|
      requires forall op | op in ops :: InRange(file, op)
      modifies this`filePos, this`lastError, this`cacheIndex, this`cacheOffset, this`pos, slots
      ensures Valid() && Ready() && pos <= |file|
      ensures out == FlatRun(file, old(pos), ops)
    {
      out := [];
      for i := 0 to |ops|
        invariant Valid() && Ready() && pos <= |file|
        invariant out + FlatRun(file, pos, ops[i..]) == FlatRun(file, old(pos), ops)
      {
        assert ops[i] in ops && ops[i..][1..] == ops[i + 1..];
        ghost var at := pos;
        var answer := Perform(ops[i]);
        AssociateThree(out, [answer], FlatRun(file, pos, ops[i + 1..]));
        out := out + [answer];
      }
    }

    // -------------------------------------------------------------- parsing

    /** The NODE_START case: records where the properties end and parses the children. */
    method ParseChild(cur: NodeStruct, ghost q: nat, ghost expected: Option<Siblings>)
      returns (ok: bool, ghost kids: set<NodeStruct>)
      requires Valid() && Ready() && pos == q + 1 && cur.start + 2 <= q < |file| && file[q] == NODE_START
      requires expected == ParseSiblings(file, q)
      modifies this`filePos, this`lastError, this`cacheIndex, this`cacheOffset, this`pos, slots, cur`child
      modifies cur`propsSize
      ensures Valid() && Ready()
      ensures ok == expected.Some?
      ensures ok ==> pos == expected.value.next && cur.propsSize == q - cur.start - 2
      ensures ok ==> cur.child != null && cur.child in kids && cur.child.tail == expected.value.nodes
      ensures fresh(kids) && (ok ==> forall n {:trigger n.Agrees(file, kids)} | n in kids :: n.Agrees(file, kids))
      decreases |file| - q, 5
    {
      var told, at := SafeTell();
      if !told {
        return false, {};
      }
      var childNode := new NodeStruct(if expected.Some? then expected.value.nodes else []);
      childNode.start := at;
      cur.propsSize := at - cur.start - 2;
      cur.child := childNode;
      ok, kids := ParseNode(childNode, expected);
    }

    /** The inner loop of the source: from the first property byte to the node's NODE_END.
        `stop` is where the properties end; `below` is what stands there if it is a child. */
    method ParseProps(cur: NodeStruct, ghost stop: Option<nat>, ghost below: Option<Siblings>)
      returns (ok: bool, ghost kids: set<NodeStruct>)
      requires Valid() && Ready() && pos == cur.start + 2 <= |file| && cur.child == null
      requires stop == ScanProps(file, pos)
      requires stop.Some? && file[stop.value] == NODE_START ==> below == ParseSiblings(file, stop.value)
      modifies this`filePos, this`lastError, this`cacheIndex, this`cacheOffset, this`pos, slots, cur`child
      modifies cur`propsSize
      ensures Valid() && Ready() && fresh(kids)
      ensures ok == (stop.Some? && (file[stop.value] == NODE_START ==> below.Some? && below.value.next < |file|))
      ensures ok ==> cur.propsSize == stop.value - cur.start - 2
      ensures ok && file[stop.value] == NODE_END ==> pos == stop.value + 1 && cur.child == null
      ensures ok && file[stop.value] == NODE_START ==>
        pos == below.value.next + 1 && cur.child != null && cur.child in kids && cur.child.tail == below.value.nodes
      ensures ok ==> forall n {:trigger n.Agrees(file, kids)} | n in kids :: n.Agrees(file, kids)
      decreases |file| - cur.start, 0
    {
      kids := {};
      var setPropsSize := false;
      while true
        invariant Valid() && Ready() && cur.start + 2 <= pos <= |file|
        invariant !setPropsSize ==> ScanProps(file, pos) == stop && cur.child == null
        invariant setPropsSize ==>
          && stop.Some? && file[stop.value] == NODE_START && below.Some?
          && pos == below.value.next && cur.propsSize == stop.value - cur.start - 2
          && cur.child != null && cur.child in kids && cur.child.tail == below.value.nodes
          && (pos < |file| ==> file[pos] == NODE_END)
        invariant fresh(kids) && forall n {:trigger n.Agrees(file, kids)} | n in kids :: n.Agrees(file, kids)
        decreases |file| - pos
      {
        var read, byte := ReadByte();
        if !read {
          return false, kids;
        }
        if byte == NODE_START {
          setPropsSize := true;
          var parsed;
          parsed, kids := ParseChild(cur, stop.value, below);
          if !parsed {
            return false, kids;
          }
        } else if byte == NODE_END {
          if !setPropsSize {
            var told, at := SafeTell();
            if !told {
              return false, kids;
            }
            cur.propsSize := at - cur.start - 2;
          }
          break;
        } else if byte == ESCAPE_CHAR {
          read, byte := ReadByte();
          if !read {
            return false, kids;
          }
        }
      }
      ok := true;
    }

    /** One node: its type byte, its properties, its children, its NODE_END. */
    method ParseBody(cur: NodeStruct, ghost expected: Option<OneNode>) returns (ok: bool, ghost kids: set<NodeStruct>)
      requires Valid() && Ready() && pos == cur.start + 1 && cur.child == null
      requires cur.start < |file| && file[cur.start] == NODE_START
      requires expected == ParseOne(file, cur.start)
      modifies this`filePos, this`lastError, this`cacheIndex, this`cacheOffset, this`pos, slots, cur`child
      modifies cur`propsSize, cur`kind
      ensures Valid() && Ready() && fresh(kids)
      ensures ok == expected.Some?
      ensures ok ==> pos == expected.value.end + 1 && cur.BodyAgrees(expected.value.node, file, kids)
      ensures ok ==> forall n {:trigger n.Agrees(file, kids)} | n in kids :: n.Agrees(file, kids)
      decreases |file| - cur.start, 1
    {
      kids := {};
      var read, byte := ReadByte();
      if !read {
        return false, kids;
      }
      cur.kind := byte;
      ghost var stop := ScanProps(file, pos);
      ghost var below := if stop.Some? && file[stop.value] == NODE_START then ParseSiblings(file, stop.value) else None;
      OneStep(file, cur.start, stop, below);
      ok, kids := ParseProps(cur, stop, below);
    }

    /** The NODE_START case after a NODE_END: links a fresh sibling. */
    method StartSibling(cur: NodeStruct, ghost tail: seq<Node>) returns (ok: bool, nextNode: NodeStruct)
      requires Valid() && Ready() && pos >= 1
      modifies this`lastError, cur`next
      ensures Valid() && ok && cur.next == nextNode && fresh(nextNode) && nextNode.tail == tail
      ensures nextNode.start == pos - 1 && nextNode.child == null && nextNode.next == null
    {
      nextNode := new NodeStruct(tail);
      var told, at := SafeTell();
      if !told {
        return false, nextNode;
      }
      nextNode.start := at;
      cur.next := nextNode;
      ok := true;
    }

    /** Two NODE_ENDs in a row: the second one is left for the parent to read. */
    method StepBack() returns (ok: bool)
      requires Valid() && Ready() && 1 <= pos <= |file|
      modifies this`filePos, this`lastError, this`cacheIndex, this`cacheOffset, this`pos, slots
      ensures ok && Valid() && Ready() && pos == old(pos) - 1
    {
      var told, at := SafeTell();
      if !told {
        return false;
      }
      ok := SafeSeek(at);
    }

    /** The byte after a NODE_END: the end of the file, a sibling, the parent's NODE_END, or an error. */
    method AfterEnd(cur: NodeStruct, ghost tail: seq<Node>) returns (ok: bool, nextNode: NodeStruct?)
      requires Valid() && Ready() && pos <= |file| && cur.next == null
      modifies this`filePos, this`lastError, this`cacheIndex, this`cacheOffset, this`pos, slots, cur`next
      ensures Valid() && Ready() && cur.next == nextNode
      ensures ok == (old(pos) == |file| || file[old(pos)] == NODE_START || file[old(pos)] == NODE_END)
      ensures ok && nextNode == null ==> pos == old(pos) && (old(pos) == |file| || file[old(pos)] == NODE_END)
      ensures nextNode != null ==>
        && fresh(nextNode) && nextNode.child == null && nextNode.next == null && nextNode.tail == tail
        && old(pos) < |file| && file[old(pos)] == NODE_START && nextNode.start == old(pos) && pos == old(pos) + 1
    {
      nextNode := null;
      var read, byte := ReadByte();
      if !read {
        ok := true;
      } else if byte == NODE_START {
        ok, nextNode := StartSibling(cur, tail);
      } else if byte == NODE_END {
        ok := StepBack();
      } else {
        lastError := ErrorInvalidFormat;
        ok := false;
      }
    }

    /** The same, with what was parsed before still in place. */
    method AfterNode(cur: NodeStruct, ghost tail: seq<Node>, ghost kids: set<NodeStruct>)
      returns (ok: bool, nextNode: NodeStruct?)
      requires Valid() && Ready() && pos <= |file| && cur.next == null && cur !in kids
      requires forall n {:trigger n.Agrees(file, kids)} | n in kids :: n.Agrees(file, kids)
      modifies this`filePos, this`lastError, this`cacheIndex, this`cacheOffset, this`pos, slots, cur`next
      ensures Valid() && Ready() && cur.next == nextNode
      ensures ok == (old(pos) == |file| || file[old(pos)] == NODE_START || file[old(pos)] == NODE_END)
      ensures ok && nextNode == null ==> pos == old(pos) && (old(pos) == |file| || file[old(pos)] == NODE_END)
      ensures nextNode != null ==>
        && fresh(nextNode) && nextNode.child == null && nextNode.next == null && nextNode.tail == tail
        && old(pos) < |file| && file[old(pos)] == NODE_START && nextNode.start == old(pos) && pos == old(pos) + 1
      ensures forall n {:trigger n.Agrees(file, kids)} | n in kids :: n.Agrees(file, kids)
      ensures cur.tail != [] && old(cur.BodyAgrees(cur.tail[0], file, kids)) ==> cur.BodyAgrees(cur.tail[0], file, kids)
    {
      ok, nextNode := AfterEnd(cur, tail);
      forall n | n in kids ensures n.Agrees(file, kids) {
        assert old(n.Agrees(file, kids));
      }
    }

    /** The run of siblings `rest` goes on at `at`, after the node of `cur`: it ends, or `after` follows. */
    ghost predicate GoesOn(cur: NodeStruct, rest: Option<Siblings>, at: nat, after: Option<Siblings>)
      requires at <= |file|
      reads cur`tail
    {
      if at == |file| || file[at] == NODE_END then rest.Some? && |cur.tail| == 1 && at == rest.value.next
      else if file[at] == NODE_START then
        && after == ParseSiblings(file, at) && after.Some? == rest.Some?
        && (after.Some? ==> after.value.next == rest.value.next && cur.tail != [] && after.value.nodes == cur.tail[1..])
      else rest.None?
    }

    /** The node of a round, and how the run of siblings goes on after it. */
    method RoundBody(cur: NodeStruct, ghost rest: Option<Siblings>)
      returns (ok: bool, ghost kids: set<NodeStruct>, ghost after: Option<Siblings>)
      requires Valid() && Ready() && pos == cur.start + 1 && cur.child == null
      requires cur.start < |file| && file[cur.start] == NODE_START
      requires rest == ParseSiblings(file, cur.start) && (rest.Some? ==> cur.tail == rest.value.nodes)
      modifies this`filePos, this`lastError, this`cacheIndex, this`cacheOffset, this`pos, slots, cur`child
      modifies cur`propsSize, cur`kind
      ensures Valid() && Ready() && fresh(kids)
      ensures !ok ==> rest.None?
      ensures ok && rest.Some? ==> cur.tail != [] && cur.BodyAgrees(cur.tail[0], file, kids)
      ensures ok ==> forall n {:trigger n.Agrees(file, kids)} | n in kids :: n.Agrees(file, kids)
      ensures ok ==> cur.start + 1 < pos <= |file| && GoesOn(cur, rest, pos, after)
      decreases |file| - cur.start, 2
    {
      ghost var one := ParseOne(file, cur.start);
      ok, kids := ParseBody(cur, one);
      after := if ok && pos < |file| && file[pos] == NODE_START then ParseSiblings(file, pos) else None;
      SiblingsStep(file, cur.start, one, after);
      assert rest.Some? ==> cur.tail[0] == one.value.node;
    }

    /** One round of the outer loop of the source: a node and the byte after it. Without a
        `nextNode` the run of siblings is over. */
    method ParseRound(cur: NodeStruct, ghost rest: Option<Siblings>)
      returns (ok: bool, nextNode: NodeStruct?, ghost kids: set<NodeStruct>, ghost after: Option<Siblings>)
      requires Valid() && Ready() && pos == cur.start + 1 && cur.child == null && cur.next == null
      requires cur.start < |file| && file[cur.start] == NODE_START
      requires rest == ParseSiblings(file, cur.start) && (rest.Some? ==> cur.tail == rest.value.nodes)
      modifies this`filePos, this`lastError, this`cacheIndex, this`cacheOffset, this`pos, slots, cur`child
      modifies cur`propsSize, cur`kind, cur`next
      ensures Valid() && Ready() && fresh(kids)
      ensures !ok ==> rest.None?
      ensures ok && rest.Some? ==> cur.tail != [] && cur.BodyAgrees(cur.tail[0], file, kids)
      ensures ok ==> forall n {:trigger n.Agrees(file, kids)} | n in kids :: n.Agrees(file, kids)
      ensures ok ==> cur.next == nextNode
      ensures ok && nextNode == null ==> rest.Some? && |cur.tail| == 1 && pos == rest.value.next
      ensures ok && nextNode != null ==>
        && fresh(nextNode) && nextNode.child == null && nextNode.next == null
        && cur.start < nextNode.start < |file| && pos == nextNode.start + 1 && file[nextNode.start] == NODE_START
        && after == ParseSiblings(file, nextNode.start) && after.Some? == rest.Some?
        && (after.Some? ==> after.value.next == rest.value.next && nextNode.tail == after.value.nodes == cur.tail[1..])
      decreases |file| - cur.start, 3
    {
      nextNode := null;
      ok, kids, after := RoundBody(cur, rest);
      if ok {
        ok, nextNode := AfterNode(cur, if after.Some? then after.value.nodes else [], kids);
      }
    }

    /** The node whose NODE_START was just read, and its siblings. On arbitrary bytes it
        terminates and agrees with ParseSiblings, although it steps back one byte at the end. */
    method ParseNode(node: NodeStruct, ghost expected: Option<Siblings>) returns (ok: bool, ghost ns: set<NodeStruct>)
      requires Valid() && Ready() && pos == node.start + 1 && node.child == null && node.next == null
      requires node.start < |file| && file[node.start] == NODE_START
      requires expected == ParseSiblings(file, node.start)
      requires expected.Some? ==> node.tail == expected.value.nodes
      modifies this`filePos, this`lastError, this`cacheIndex, this`cacheOffset, this`pos, slots, node`child
      modifies node`propsSize, node`kind, node`next
      ensures Valid() && Ready()
      ensures node in ns && fresh(ns - {node})
      ensures ok == expected.Some?
      ensures ok ==> pos == expected.value.next
      ensures ok ==> forall n {:trigger n.Agrees(file, ns)} | n in ns :: n.Agrees(file, ns)
      decreases |file| - node.start, 4
    {
      var cur: NodeStruct? := node;
      ghost var rest := expected;
      ns := {node};
      ok := true;
      while ok && cur != null
        invariant Valid() && Ready()
        invariant node in ns && fresh(ns - {node})
        invariant ok && cur != null ==>
          && cur in ns && pos == cur.start + 1 && cur.child == null && cur.next == null
          && node.start <= cur.start < |file| && file[cur.start] == NODE_START
          && (rest.Some? ==> cur.tail == rest.value.nodes)
          && rest == ParseSiblings(file, cur.start)
        invariant rest.Some? == expected.Some? && (rest.Some? ==> rest.value.next == expected.value.next)
        invariant ok && rest.Some? ==> forall n {:trigger n.Agrees(file, ns)} | n in ns && n != cur ::
          n.Agrees(file, ns)
        invariant !ok ==> expected.None?
        invariant ok && cur == null ==> expected.Some? && pos == expected.value.next
        decreases ok, if cur == null then 0 else |file| - cur.start
      {
        var nextNode;
        ghost var kids, after;
        ok, nextNode, kids, after := ParseRound(cur, rest);
        if ok {
          ghost var all := if nextNode == null then ns + kids else ns + kids + {nextNode};
          if rest.Some? {
            AgreeTogether(file, ns, cur, kids, all);
          }
          ns := all;
          cur := nextNode;
          if cur != null {
            rest := after;
          }
        }
      }
    }

    // -------------------------------------------------------------- opening and reading

    /** Switches the cache on and picks its block size from the length of the file. */
    method StartCaching()
      requires Valid() && !useCache && forall i | 0 <= i < CACHE_BLOCKS :: !slots[i].loaded
      modifies this`filePos, this`useCache, this`cacheSize
      ensures Valid()
    {
      CacheSizeInRange(|file|);
      useCache := true;
      filePos := |file|;
      cacheSize := CacheSizeFor(|file|);
    }

    /** Parses the roots, which start right after the version word. */
    method ParseRoots(ghost p: nat) returns (ok: bool, ghost ns: set<NodeStruct>)
      requires Valid() && p == |VERSION| <= |file|
      modifies this`filePos, this`lastError, this`root, this`cacheIndex, this`cacheOffset, this`pos, slots
      ensures Valid()
      ensures ok == (p < |file| && file[p] == NODE_START && ParseSiblings(file, p).Some?)
      ensures ok ==> root != null && root in ns && root.tail == ParseSiblings(file, p).value.nodes
      ensures ok ==> forall n {:trigger n.Agrees(file, ns)} | n in ns :: n.Agrees(file, ns)
    {
      ns := {};
      ghost var expected := if p < |file| && file[p] == NODE_START then ParseSiblings(file, p) else None;
      root := new NodeStruct(if expected.Some? then expected.value.nodes else []);
      root.start := |VERSION|;
      ok := SafeSeek(|VERSION|);
      if ok {
        var byte;
        ok, byte := ReadByte();
        if ok && byte == NODE_START {
          ok, ns := ParseNode(root, expected);
        } else {
          ok := false;
        }
      }
    }

    /** Opens the file for reading: it succeeds exactly on the files that ParseFile accepts, with
        or without the cache, and leaves the tree that ParseFile names in memory. */
    method OpenRead(canOpen: bool, caching: bool) returns (ok: bool, ghost ns: set<NodeStruct>)
      requires Valid() && !useCache && cacheIndex == NO_VALID_CACHE && pos == 0
      requires forall i | 0 <= i < CACHE_BLOCKS :: !slots[i].loaded
      modifies this`filePos, this`lastError, this`root, this`useCache, this`cacheSize, this`cacheIndex
      modifies this`cacheOffset, this`pos, slots
      ensures Valid()
      ensures ok == (canOpen && ParseFile(file).Some?)
      ensures ok ==> root != null && root in ns && root.tail == ParseFile(file).value
      ensures ok ==> forall n {:trigger n.Agrees(file, ns)} | n in ns :: n.Agrees(file, ns)
    {
      ns := {};
      if !canOpen {
        lastError := ErrorCanNotOpen;
        return false, ns;
      }
      if |file| < |VERSION| {
        lastError := ErrorEof;
        return false, ns;
      }
      filePos := |VERSION|;
      pos := filePos;
      if file[..|VERSION|] != VERSION {
        lastError := ErrorInvalidVersion;
        return false, ns;
      }
      if caching {
        StartCaching();
      }
      ok := SafeSeek(|VERSION|);
      if ok {  // always: the position is inside the file
        ok, ns := ParseRoots(|VERSION|);
      }
    }

    /** Makes room for a node's properties: the buffer grows at most once, by 1024 bytes. */
    method Reserve(size: nat)
      requires size <= buffer.Length + 1024
      modifies this`buffer
      ensures size <= buffer.Length && old(buffer.Length) <= buffer.Length
      ensures buffer == old(buffer) || fresh(buffer)
    {
      if size >= buffer.Length {
        buffer := new Byte[buffer.Length + 1024];
      }
    }

    /** Drops the escape bytes from the first `count` bytes of the buffer, in place. */
    method UnescapeBuffer(count: nat) returns (size: nat)
      requires count <= buffer.Length && WellEscaped(buffer[..count])
      modifies buffer
      ensures size <= count && buffer[..size] == Unescape(old(buffer[..count]))
    {
      ghost var raw := buffer[..count];
      ghost var plain := Unescape(raw);
      var i, j, escaped := 0, 0, false;
      assert raw[0..] == raw && plain[0..] == plain;
      while i < count
        invariant 0 <= j <= i <= count && (!escaped ==> j == i)
        invariant j <= |plain| && plain[j..] == Unescape(raw[i..]) && WellEscaped(raw[i..])
        invariant forall k | i <= k < count :: buffer[k] == raw[k]
        invariant forall k | 0 <= k < j :: buffer[k] == plain[k]
      {
        UnescapeStep(raw, i, plain, j);
        if buffer[i] == ESCAPE_CHAR {
          i := i + 1;
          buffer[j] := buffer[i];
          escaped := true;
        } else if escaped {
          buffer[j] := buffer[i];
        }
        i, j := i + 1, j + 1;
      }
      size := j;
    }

    /** The plain properties of a node, at the front of the buffer. */
    method GetProps(node: NodeStruct?) returns (ok: bool, size: nat)
      requires Valid()
      requires node != null ==> node.propsSize <= buffer.Length + 1024
      requires node != null ==> node.start + 2 + node.propsSize <= |file|
      requires node != null ==> WellEscaped(file[node.start + 2..node.start + 2 + node.propsSize])
      modifies this`filePos, this`lastError, this`cacheIndex, this`cacheOffset, this`pos, this`buffer, slots, buffer
      ensures Valid() && ok == (node != null)
      ensures node != null ==>
        size <= buffer.Length && buffer[..size] == Unescape(file[node.start + 2..node.start + 2 + node.propsSize])
      ensures buffer.Length >= old(buffer.Length) && (buffer == old(buffer) || fresh(buffer))
    {
      size := 0;
      if node == null {
        return false, size;
      }
      Reserve(node.propsSize);
      ok := ReadBytes(buffer, node.propsSize, node.start + 2);
      if !ok {
        return false, size;
      }
      size := UnescapeBuffer(node.propsSize);
    }

    /** Reads one node and everything below it. */
    method ReadOne(n: NodeStruct, ghost node: Node, ghost ns: set<NodeStruct>) returns (r: Node)
      requires Valid() && buffer.Length >= 1024
      requires forall n {:trigger n.Agrees(file, ns)} | n in ns :: n.Agrees(file, ns)
      requires n in ns && n.tail != [] && n.tail[0] == node
      requires WellFormed(node) && |node.props| <= 2048 && PropsAtMost(node.children, 2048)
      modifies this`filePos, this`lastError, this`cacheIndex, this`cacheOffset, this`pos, this`buffer, slots, buffer
      ensures Valid() && buffer.Length >= 1024 && (buffer == old(buffer) || fresh(buffer))
      ensures r == Decode(node)
      decreases node, 0
    {
      assert n.Agrees(file, ns);
      assert file[n.start + 2..n.start + 2 + n.propsSize] == node.props;
      var _, size := GetProps(n);
      var props := buffer[..size];
      var kids := ReadNodes(n.child, node.children, ns);
      r := Node(n.kind, props, kids);
    }

    /** Reads a run of siblings and everything below them, as the users of the loader do with
        getChildNode, getNextNode and getProps. */
    method ReadNodes(first: NodeStruct?, ghost nodes: seq<Node>, ghost ns: set<NodeStruct>) returns (r: seq<Node>)
      requires Valid() && buffer.Length >= 1024
      requires forall n {:trigger n.Agrees(file, ns)} | n in ns :: n.Agrees(file, ns)
      requires if first == null then nodes == [] else first in ns && first.tail == nodes
      requires WellFormedList(nodes) && PropsAtMost(nodes, 2048)
      modifies this`filePos, this`lastError, this`cacheIndex, this`cacheOffset, this`pos, this`buffer, slots, buffer
      ensures Valid() && buffer.Length >= 1024 && (buffer == old(buffer) || fresh(buffer))
      ensures r == DecodeList(nodes)
      decreases nodes, 1
    {
      if first == null {
        return [];
      }
      assert first.Agrees(file, ns);
      var one := ReadOne(first, nodes[0], ns);
      var rest := ReadNodes(first.next, nodes[1..], ns);
      return [one] + rest;
    }
  }

  lemma UnescapeStep(raw: seq<Byte>, i: nat, plain: seq<Byte>, j: nat)
    requires i < |raw| && j <= |plain| && plain[j..] == Unescape(raw[i..]) && WellEscaped(raw[i..])
    ensures var k := if raw[i] == ESCAPE_CHAR then 2 else 1;
            && i + k <= |raw| && WellEscaped(raw[i + k..])
            && j < |plain| && plain[j] == raw[i + k - 1] && plain[j + 1..] == Unescape(raw[i + k..])
  {
    var k := if raw[i] == ESCAPE_CHAR then 2 else 1;
    assert raw[i..][k..] == raw[i + k..];
    assert plain[j..] == [raw[i + k - 1]] + Unescape(raw[i + k..]);
    assert plain[j] == plain[j..][0];
    assert plain[j + 1..] == plain[j..][1..];
  }

  /** No node's escaped properties are longer than `limit`. */
  ghost predicate PropsAtMost(nodes: seq<Node>, limit: nat)
  {
    nodes == [] || (|nodes[0].props| <= limit && PropsAtMost(nodes[0].children, limit) &&
      PropsAtMost(nodes[1..], limit))
  }

  // ---------------------------------------------------------------- writing

  lemma Nested<T>(start: seq<T>, a: seq<T>, b: seq<T>, c: seq<T>, d: seq<T>, e: seq<T>)
    ensures start + (a + b) + c + d + e == start + (a + (b + (c + (d + e))))
  {
    AssociateThree(start, a + b, c);
    AssociateThree(start, (a + b) + c, d);
    AssociateThree(start, ((a + b) + c) + d, e);
    AssociateThree(a, b, c);
    AssociateThree(a, b + c, d);
    AssociateThree(a, (b + c) + d, e);
    AssociateThree(b, c, d);
    AssociateThree(b, c + d, e);
    AssociateThree(c, d, e);
  }

  lemma InTwo(start: seq<Byte>, nodes: seq<Node>)
    requires nodes != []
    ensures start + WriteNode(nodes[0]) + WriteList(nodes[1..]) == start + WriteList(nodes)
  {
    AssociateThree(start, WriteNode(nodes[0]), WriteList(nodes[1..]));
  }

  lemma EscapeNext(data: seq<Byte>, i: nat)
    requires i < |data|
    ensures data[..i + 1] == data[..i] + [data[i]]
    ensures Escape(data[..i + 1]) == Escape(data[..i]) + EscapeByte(data[i])
  {
    assert data[..i + 1] == data[..i] + [data[i]];
    EscapeAppend(data[..i], [data[i]]);
    EscapeOne(data[i]);
  }

  /** The loader opened for writing. */
  class FileWriter {
    var file: seq<Byte>

    constructor ()
      ensures file == VERSION
    {
      file := [];
      new;
      WriteData(VERSION, false);
    }

    method WriteData(data: seq<Byte>, unescape: bool)
      modifies this
      ensures file == old(file) + if unescape then Escape(data) else data
    {
      for i := 0 to |data|
        invariant file == old(file) + if unescape then Escape(data[..i]) else data[..i]
      {
        var c := data[i];
        EscapeNext(data, i);
        ghost var before := file;
        if unescape && (c == NODE_START || c == NODE_END || c == ESCAPE_CHAR) {
          file := file + [ESCAPE_CHAR];
        }
        file := file + [c];
        assert file == before + if unescape then EscapeByte(c) else [c];
      }
      assert data[..|data|] == data;
    }

    method StartNode(kind: Byte)
      modifies this
      ensures file == old(file) + ([NODE_START] + Escape([kind]))
    {
      WriteData([NODE_START], false);
      WriteData([kind], true);
    }

    method SetProps(data: seq<Byte>)
      requires |data| < 0x1_0000
      modifies this
      ensures file == old(file) + Escape(data)
    {
      WriteData(data, true);
    }

    method EndNode()
      modifies this
      ensures file == old(file) + [NODE_END]
    {
      WriteData([NODE_END], false);
    }

    /** Writes a tree with the four calls above, properties before children. */
    method WriteTree(nodes: seq<Node>)
      requires PropsAtMost(nodes, 0xFFFF)
      modifies this
      ensures file == old(file) + WriteList(nodes)
      decreases nodes, 1
    {
      if nodes != [] {
        WriteOne(nodes[0]);
        WriteTree(nodes[1..]);
        InTwo(old(file), nodes);
      } else {
        assert file == old(file) + [];
      }
    }

    method WriteOne(n: Node)
      requires |n.props| <= 0xFFFF && PropsAtMost(n.children, 0xFFFF)
      modifies this
      ensures file == old(file) + WriteNode(n)
      decreases n, 0
    {
      ghost var start := file;
      StartNode(n.kind);
      SetProps(n.props);
      WriteTree(n.children);
      EndNode();
      Nested(start, [NODE_START], Escape([n.kind]), Escape(n.props), WriteList(n.children), [NODE_END]);
    }
  }

  lemma {:induction false} EncodedLength(data: seq<Byte>)
    ensures |data| <= |Escape(data)|
  {
    if data != [] { EncodedLength(data[1..]); }
  }

  /** Plain properties are not longer than escaped ones. */
  lemma {:induction false} PlainFits(nodes: seq<Node>, limit: nat, more: nat)
    requires PropsAtMost(EncodeList(nodes), limit) && limit <= more
    ensures PropsAtMost(nodes, more)
    decreases nodes
  {
    if nodes != [] {
      EncodedLength(nodes[0].props);
      assert EncodeList(nodes)[1..] == EncodeList(nodes[1..]);
      PlainFits(nodes[0].children, limit, more);
      PlainFits(nodes[1..], limit, more);
    }
  }

  /** The whole path: a safe tree whose properties fit the loader's buffer after it has grown once,
      written, opened through the block cache or without it, walked and unescaped in place, comes back
      as it was. */
  method SaveAndLoad(nodes: seq<Node>, caching: bool) returns (ok: bool, r: seq<Node>)
    requires nodes != [] && SafeList(nodes) && PropsAtMost(EncodeList(nodes), 2048)
    requires |VERSION + WriteList(nodes)| < FILE_LIMIT
    ensures ok && r == nodes
  {
    PlainFits(nodes, 2048, 0xFFFF);
    var writer := new FileWriter();
    writer.WriteTree(nodes);
    SafeReadsBack(nodes);
    EncodeNodes(nodes);
    ok, r := Load(writer.file, caching, EncodeList(nodes));
  }

  /** A file that parses is opened, and its nodes are read from the root on. */
  method Load(file: seq<Byte>, caching: bool, ghost raw: seq<Node>) returns (ok: bool, r: seq<Node>)
    requires |file| < FILE_LIMIT && ParseFile(file) == Some(raw) && WellFormedList(raw) && PropsAtMost(raw, 2048)
    ensures ok && r == DecodeList(raw)
  {
    var loader := new FileLoader(file);
    ghost var ns;
    ok, ns := loader.OpenRead(true, caching);
    r := loader.ReadNodes(loader.root, raw, ns);
  }

  /** A finished node and everything below it join the siblings before it. */
  lemma AgreeTogether(file: seq<Byte>, ns: set<NodeStruct>, cur: NodeStruct, kids: set<NodeStruct>,
                      all: set<NodeStruct>)
    requires forall n {:trigger n.Agrees(file, ns)} | n in ns && n != cur :: n.Agrees(file, ns)
    requires forall n {:trigger n.Agrees(file, kids)} | n in kids :: n.Agrees(file, kids)
    requires cur.tail != [] && cur.BodyAgrees(cur.tail[0], file, kids)
    requires if cur.next == null then |cur.tail| == 1 else cur.next in all && cur.next.tail == cur.tail[1..]
    requires ns + kids <= all
    ensures forall n {:trigger n.Agrees(file, all)} | n in ns + kids + {cur} :: n.Agrees(file, all)
  {
    forall n | n in ns + kids + {cur} ensures n.Agrees(file, all) {
      assert n == cur || n.Agrees(file, ns) || n.Agrees(file, kids);
    }
  }
}
