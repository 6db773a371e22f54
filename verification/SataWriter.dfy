/**
 generate-sata-writer.py: a compiler from the geometry of a disk image to a U-Boot
 script without loops, and the machine that runs such a script.
 */
module SataWriter {
  import opened Arithmetic
  import opened Bytes

  const SECTOR_SIZE: nat := 512
  const COMMANDS_PER_BATCH: nat := 8

  // ---------- Scripts ----------

  /** The image as one file on the USB stick, or as numbered parts. */
  datatype File = Whole | Part(index: int)

  datatype Name = LoadSlot(slot: nat) | WriteSlot(slot: nat)

  datatype Action = FatLoad(file: File, count: int, offset: int) | ScsiWrite(lba: int, sectors: int)

  datatype Command =
    | Echo
    | UsbStart                             // usb start
    | ScsiScan                             // scsi scan
    | ScsiDevice                           // scsi device 0
    | SetEnv(name: Name, action: Action)   // setenv load<slot> or write<slot>
    | SetBatch(names: seq<Name>)           // setenv sata_batch run ...
    | RunBatch                             // run sata_batch

  // ---------- The machine ----------

  datatype Machine = Machine(
    usb: bool, scanned: bool, selected: bool,
    env: map<Name, Action>, batch: seq<Name>, memory: bytes, disk: bytes, written: seq<nat>, ok: bool)

  function Min(a: int, b: int): int { if a < b then a else b }

  /**
   The contents of a file: an image that fits one part is there as a whole, a larger one
   is split into parts of `partSize`. A file that does not exist is empty.
   */
  function Content(image: bytes, partSize: int, f: File): bytes {
    match f
    case Whole => if |image| <= partSize then image else []
    case Part(k) =>
      if k < 0 || partSize < 0 || k * partSize > |image| || |image| <= partSize then []
      else image[k * partSize..Min(|image|, k * partSize + partSize)]
  }

  /**
   fatload and scsi write. It is a failure to load before the stick is started or past the
   end of a file, and to write before the disk is selected or past its end.
   */
  function Perform(m: Machine, image: bytes, partSize: int, a: Action): Machine {
    match a
    case FatLoad(f, count, offset) =>
      var file := Content(image, partSize, f);
      if m.usb && 0 <= offset && 0 <= count && offset + count <= |file| then
        m.(memory := file[offset..offset + count])
      else m.(ok := false)
    case ScsiWrite(lba, sectors) =>
      var at, n := lba * SECTOR_SIZE, sectors * SECTOR_SIZE;
      if m.selected && 0 <= at && 0 <= n && at + n <= |m.disk| && n <= |m.memory| && |m.written| == |m.disk| then
        m.(disk := m.disk[..at] + m.memory[..n] + m.disk[at + n..],
           written := m.written[..at] + Bumped(m.written[at..at + n]) + m.written[at + n..])
      else m.(ok := false)
  }

  function Bumped(counts: seq<nat>): (r: seq<nat>)
    ensures |r| == |counts| && forall i :: 0 <= i < |r| ==> r[i] == counts[i] + 1
  {
    seq(|counts|, i requires 0 <= i < |counts| => counts[i] + 1)
  }

  function PerformAll(m: Machine, image: bytes, partSize: int, names: seq<Name>): Machine {
    if names == [] then m
    else
      var before := PerformAll(m, image, partSize, names[..|names| - 1]);
      var last := names[|names| - 1];
      if last in before.env then Perform(before, image, partSize, before.env[last]) else before.(ok := false)
  }

  function Step(m: Machine, image: bytes, partSize: int, c: Command): Machine {
    match c
    case Echo => m
    case UsbStart => m.(usb := true)
    case ScsiScan => m.(scanned := true)
    case ScsiDevice => if m.scanned then m.(selected := true) else m.(ok := false)
    case SetEnv(name, action) => m.(env := m.env[name := action])
    case SetBatch(names) => m.(batch := names)
    case RunBatch => PerformAll(m, image, partSize, m.batch)
  }

  function Execute(m: Machine, image: bytes, partSize: int, script: seq<Command>): Machine {
    if script == [] then m
    else Step(Execute(m, image, partSize, script[..|script| - 1]), image, partSize, script[|script| - 1])
  }

  lemma {:induction false} ExecuteNext(m: Machine, image: bytes, partSize: int, script: seq<Command>, c: Command)
    ensures Execute(m, image, partSize, script + [c]) == Step(Execute(m, image, partSize, script), image, partSize, c)
  {
    assert (script + [c])[..|script|] == script;
  }

  lemma {:induction false} PerformNext(m: Machine, image: bytes, partSize: int, names: seq<Name>, name: Name)
    ensures var before := PerformAll(m, image, partSize, names);
            PerformAll(m, image, partSize, names + [name]) ==
            if name in before.env then Perform(before, image, partSize, before.env[name]) else before.(ok := false)
  {
    assert (names + [name])[..|names|] == names;
  }

  // ---------- The chunks ----------

  datatype Geometry = Geometry(imageSize: int, chunkSize: int, partSize: int)

  /** Python's floor division and its remainder. */
  function FloorDiv(a: int, b: int): int
    requires b != 0
  {
    if b > 0 then a / b else (-a) / (-b)
  }

  function FloorMod(a: int, b: int): int
    requires b != 0
  {
    a - b * FloorDiv(a, b)
  }

  lemma {:induction false} FloorPositive(a: int, b: int)
    requires b > 0
    ensures FloorDiv(a, b) == a / b && FloorMod(a, b) == a % b
  {
  }

  /** The tests at the start of build_commands: signs are not looked at. */
  predicate Accepted(g: Geometry) {
    && g.imageSize != 0 && g.imageSize % SECTOR_SIZE == 0
    && g.chunkSize != 0 && g.chunkSize % SECTOR_SIZE == 0
    && g.partSize != 0 && g.partSize % g.chunkSize == 0
  }

  predicate Chunked(g: Geometry) { Accepted(g) && g.chunkSize > 0 }

  predicate Positive(g: Geometry) { Chunked(g) && g.partSize > 0 }

  function Chunks(g: Geometry): int
    requires g.chunkSize != 0
  {
    FloorDiv(g.imageSize + g.chunkSize - 1, g.chunkSize)
  }

  function PartCount(g: Geometry): int
    requires g.partSize != 0
  {
    FloorDiv(g.imageSize + g.partSize - 1, g.partSize)
  }

  /** Where the first n chunks end. */
  function Edge(g: Geometry, n: nat): int { Min(n * g.chunkSize, g.imageSize) }

  function LoadAction(g: Geometry, chunk: nat): Action
    requires g.partSize != 0
  {
    var offset := chunk * g.chunkSize;
    FatLoad(if PartCount(g) == 1 then Whole else Part(FloorDiv(offset, g.partSize)),
            Min(g.chunkSize, g.imageSize - offset), FloorMod(offset, g.partSize))
  }

  function WriteAction(g: Geometry, chunk: nat): Action {
    var offset := chunk * g.chunkSize;
    ScsiWrite(FloorDiv(offset, SECTOR_SIZE), FloorDiv(Min(g.chunkSize, g.imageSize - offset), SECTOR_SIZE))
  }

  /** A quotient of a positive size, rounded up as for a positive divisor, is not positive when the divisor is not. */
  lemma {:induction false} NothingToCount(size: int, unit: int)
    requires size > 1 && unit < 0
    ensures FloorDiv(size + unit - 1, unit) <= 0
  {
    var a, b := 1 - unit - size, -unit;
    assert a < b;
    assert a == (a / b) * b + a % b;
  }

  /** A chunk starts inside the image, on a sector, and covers the bytes up to the next edge. */
  lemma {:induction false} ChunkEdges(g: Geometry, chunk: nat)
    requires Chunked(g) && chunk < Chunks(g)
    ensures var offset := chunk * g.chunkSize;
            && offset < g.imageSize && Edge(g, chunk) == offset
            && Edge(g, chunk + 1) == offset + Min(g.chunkSize, g.imageSize - offset)
            && offset % SECTOR_SIZE == 0 && Min(g.chunkSize, g.imageSize - offset) % SECTOR_SIZE == 0
  {
    ChunkStart(g, chunk);
    var offset := chunk * g.chunkSize;
    MultipleOf(chunk, g.chunkSize, SECTOR_SIZE);
    Distribute(chunk, g.chunkSize);
    SectorsLeft(g.imageSize, offset);
  }

  lemma {:induction false} Distribute(k: nat, c: nat)
    ensures (k + 1) * c == k * c + c
  {
  }

  lemma {:induction false} SectorsLeft(a: int, b: int)
    requires a % SECTOR_SIZE == 0 && b % SECTOR_SIZE == 0
    ensures (a - b) % SECTOR_SIZE == 0
  {
  }

  lemma {:induction false} ChunkStart(g: Geometry, chunk: nat)
    requires g.chunkSize > 0 && chunk < Chunks(g)
    ensures chunk * g.chunkSize < g.imageSize
  {
    var c, n, x := g.chunkSize, Chunks(g), g.imageSize + g.chunkSize - 1;
    FloorPositive(x, c);
    assert x == (x / c) * c + x % c;
    MulMonotone(chunk + 1, n, c);
    Distribute(chunk, c);
  }

  lemma {:induction false} MultipleOf(k: nat, c: nat, s: nat)
    requires s > 0 && c % s == 0
    ensures (k * c) % s == 0
  {
    var q := c / s;
    assert c == q * s;
    assert k * c == (k * q) * s;
    ModOfMultiple(k * q, s);
  }

  // ---------- What a batch does ----------

  /** The disk holds the image up to `edge`, each byte written once, and what it held before behind that. */
  predicate Filled(m: Machine, image: bytes, was: bytes, edge: int) {
    && m.ok && m.usb && m.selected && 0 <= edge <= |image| <= |was|
    && m.disk == image[..edge] + was[edge..]
    && |m.written| == |was|
    && forall i :: 0 <= i < |was| ==> m.written[i] == if i < edge then 1 else 0
  }

  /** A chunk lies inside one part, at the offset that the command names. */
  lemma {:induction false} ChunkInPart(g: Geometry, image: bytes, chunk: nat)
    requires Positive(g) && chunk < Chunks(g) && |image| == g.imageSize
    ensures var a, offset := LoadAction(g, chunk), chunk * g.chunkSize;
            var file := Content(image, g.partSize, a.file);
            && 0 <= a.offset && 0 <= a.count && a.offset + a.count <= |file|
            && Edge(g, chunk + 1) == offset + a.count <= |image|
            && file[a.offset..a.offset + a.count] == image[offset..offset + a.count]
  {
    hide Edge, PartCount;
    ChunkEdges(g, chunk);
    PartOffset(g, chunk);
    var offset, part := chunk * g.chunkSize, g.partSize;
    var count := Min(g.chunkSize, g.imageSize - offset);
    FloorPositive(offset, part);
    OnePart(g);
    if PartCount(g) == 1 {
      DivModUnique(offset, part, 0, offset);
    } else {
      PartSlice(image, part, offset, count);
    }
  }

  lemma {:induction false} PartSlice(image: bytes, part: nat, offset: nat, count: nat)
    requires part > 0 && offset % part + count <= part && offset + count <= |image| && part < |image|
    ensures var file, o := Content(image, part, Part(offset / part)), offset % part;
            o + count <= |file| && file[o..o + count] == image[offset..offset + count]
  {
    hide Content;
    var k, o := offset / part, offset % part;
    var base := StartOfPart(offset, part);
    ContentAt(image, part, k, base);
    SliceOfSlice(image, base, Min(|image|, base + part), o, count);
  }

  lemma {:induction false} StartOfPart(offset: nat, part: nat) returns (base: nat)
    requires part > 0
    ensures base == (offset / part) * part && base + offset % part == offset
  {
    base := (offset / part) * part;
  }

  lemma {:induction false} ContentAt(image: bytes, part: nat, k: nat, base: nat)
    requires base == k * part && base <= |image| && part < |image|
    ensures Content(image, part, Part(k)) == image[base..Min(|image|, base + part)]
  {
  }

  lemma {:induction false} SliceOfSlice(s: bytes, lo: nat, hi: nat, o: nat, count: nat)
    requires lo + o + count <= hi <= |s|
    ensures s[lo..hi][o..o + count] == s[lo + o..lo + o + count]
  {
    var x, y := s[lo..hi][o..o + count], s[lo + o..lo + o + count];
    assert |x| == |y| && forall k :: 0 <= k < count ==> x[k] == y[k];
  }

  lemma {:induction false} OnePart(g: Geometry)
    requires g.partSize > 0 && g.imageSize > 0
    ensures PartCount(g) == 1 <==> g.imageSize <= g.partSize
  {
    var p, x := g.partSize, g.imageSize + g.partSize - 1;
    FloorPositive(x, p);
    assert x == (x / p) * p + x % p;
    if g.imageSize <= p {
      QuotientIs(x, p, 1);
    }
  }

  /** The parts are made of whole chunks. */
  lemma {:induction false} PartOffset(g: Geometry, chunk: nat)
    requires Positive(g)
    ensures (chunk * g.chunkSize) % g.partSize + g.chunkSize <= g.partSize
  {
    var c, q := g.chunkSize, g.partSize / g.chunkSize;
    assert g.partSize == q * c;
    assert q > 0;
    var a, b := chunk / q, chunk % q;
    assert chunk == a * q + b;
    Regroup(a, q, b, c);
    MulMonotone(b + 1, q, c);
    Distribute(b, c);
    DivModUnique(chunk * c, g.partSize, a, b * c);
  }

  lemma {:induction false} Regroup(a: nat, q: nat, b: nat, c: nat)
    ensures (a * q + b) * c == a * (q * c) + b * c
  {
  }

  /** Loading a chunk and writing it moves the edge on by that chunk. */
  lemma {:induction false} ChunkDone(m: Machine, g: Geometry, image: bytes, was: bytes, chunk: nat)
    requires Positive(g) && chunk < Chunks(g) && |image| == g.imageSize && Filled(m, image, was, Edge(g, chunk))
    ensures var loaded := Perform(m, image, g.partSize, LoadAction(g, chunk));
            var done := Perform(loaded, image, g.partSize, WriteAction(g, chunk));
            loaded.env == m.env && done.env == m.env && Filled(done, image, was, Edge(g, chunk + 1))
  {
    hide LoadAction, Content, Edge;
    ChunkEdges(g, chunk);
    ChunkInPart(g, image, chunk);
    WriteIs(g, chunk);
    var offset := chunk * g.chunkSize;
    var count := LoadAction(g, chunk).count;
    var loaded := Perform(m, image, g.partSize, LoadAction(g, chunk));
    WriteMoves(loaded, g, image, was, offset, count, WriteAction(g, chunk));
  }

  lemma {:induction false} WriteIs(g: Geometry, chunk: nat)
    requires Positive(g) && chunk < Chunks(g)
    ensures LoadAction(g, chunk).FatLoad? && WriteAction(g, chunk).ScsiWrite?
    ensures WriteAction(g, chunk).lba * SECTOR_SIZE == chunk * g.chunkSize
    ensures WriteAction(g, chunk).sectors * SECTOR_SIZE == LoadAction(g, chunk).count
  {
    hide PartCount, FloorMod;
    ChunkEdges(g, chunk);
  }

  lemma {:induction false} WriteMoves(m: Machine, g: Geometry, image: bytes, was: bytes, offset: nat, count: nat,
                                      a: Action)
    requires a.ScsiWrite? && a.lba * SECTOR_SIZE == offset && a.sectors * SECTOR_SIZE == count
    requires offset + count <= |image| && Filled(m, image, was, offset) && m.memory == image[offset..offset + count]
    ensures var done := Perform(m, image, g.partSize, a);
            done.env == m.env && Filled(done, image, was, offset + count)
  {
    assert m.disk[..offset] == image[..offset];
    assert m.disk[offset + count..] == was[offset + count..];
    assert image[..offset] + image[offset..offset + count] == image[..offset + count];
  }

  /** load0 write0 load1 write1 ... */
  function SlotNames(n: nat): seq<Name> {
    if n == 0 then [] else SlotNames(n - 1) + [LoadSlot(n - 1), WriteSlot(n - 1)]
  }

  /** The first n slots hold the commands of the chunks from `first` on, whatever the other slots hold. */
  predicate SlotsSet(env: map<Name, Action>, g: Geometry, first: nat, n: nat)
    requires g.partSize != 0
  {
    forall j :: 0 <= j < n ==>
      && LoadSlot(j) in env && env[LoadSlot(j)] == LoadAction(g, first + j)
      && WriteSlot(j) in env && env[WriteSlot(j)] == WriteAction(g, first + j)
  }

  /** Running the first n slots moves the edge on by n chunks. */
  lemma {:induction false} BatchDone(m: Machine, g: Geometry, image: bytes, was: bytes, first: nat, n: nat)
    requires Positive(g) && first + n <= Chunks(g) && |image| == g.imageSize
    requires Filled(m, image, was, Edge(g, first)) && SlotsSet(m.env, g, first, n)
    ensures var done := PerformAll(m, image, g.partSize, SlotNames(n));
            done.env == m.env && Filled(done, image, was, Edge(g, first + n))
    decreases n
  {
    hide Filled, Perform, Edge, LoadAction, WriteAction, PerformAll;
    if n == 0 {
      NothingToPerform(m, image, g.partSize);
    } else {
      BatchDone(m, g, image, was, first, n - 1);
      var names := SlotNames(n - 1);
      var before := PerformAll(m, image, g.partSize, names);
      ChunkDone(before, g, image, was, first + n - 1);
      PerformNext(m, image, g.partSize, names, LoadSlot(n - 1));
      PerformNext(m, image, g.partSize, names + [LoadSlot(n - 1)], WriteSlot(n - 1));
      assert SlotNames(n) == names + [LoadSlot(n - 1)] + [WriteSlot(n - 1)];
    }
  }

  lemma {:induction false} NothingToPerform(m: Machine, image: bytes, partSize: int)
    ensures PerformAll(m, image, partSize, []) == m
  {
  }

  // ---------- The generator ----------

  /** A machine whose disk can take the image and has not been written yet. */
  predicate Fresh(m: Machine, image: bytes) {
    m.ok && |image| <= |m.disk| == |m.written| && forall i :: 0 <= i < |m.written| ==> m.written[i] == 0
  }

  /** The machine with its stick started and its disk selected. */
  function Prepared(m: Machine): Machine { m.(usb := true, scanned := true, selected := true) }

  /**
   build_commands. A geometry is rejected by the three tests. An accepted one yields
   a script which, run on the parts of any image of that size, leaves the disk holding
   the image, every byte of it written exactly once and nothing behind it, if and only
   if the chunk and part sizes are positive. With a negative chunk size it writes
   nothing; with a negative part size its first load fails.
   */
  method BuildCommands(g: Geometry, ghost image: bytes, ghost start: Machine) returns (script: Option<seq<Command>>)
    requires |image| == g.imageSize && Fresh(start, image)
    ensures script.None? <==> !Accepted(g)
    ensures script.Some? ==>
              var m := Execute(start, image, g.partSize, script.value);
              && (Filled(m, image, start.disk, |image|) <==> g.chunkSize > 0 && g.partSize > 0)
              && (g.chunkSize < 0 ==> m == Prepared(start))
              && (g.chunkSize > 0 && g.partSize < 0 ==> !m.ok)
  {
    if g.imageSize == 0 || g.imageSize % SECTOR_SIZE != 0 {
      return None;
    }
    if g.chunkSize == 0 || g.chunkSize % SECTOR_SIZE != 0 {
      return None;
    }
    if g.partSize == 0 || g.partSize % g.chunkSize != 0 {
      return None;
    }
    var lines := Opening(g, image, start);
    var chunks := Chunks(g);
    var first := 0;
    Starts(g, image, start);
    hide Edge, Chunks, Filled, Execute, Fresh;
    while first < chunks
      invariant 0 <= first && (first <= chunks || chunks < 0)
      invariant g.chunkSize < 0 ==> first == 0 && chunks <= 0 && Execute(start, image, g.partSize, lines) == Prepared(start)
      invariant Positive(g) ==> Filled(Execute(start, image, g.partSize, lines), image, start.disk, Edge(g, first))
      invariant g.chunkSize > 0 && g.partSize < 0 && first > 0 ==> !Execute(start, image, g.partSize, lines).ok
      decreases chunks - first
    {
      var last := Min(first + COMMANDS_PER_BATCH, chunks);
      lines := AddBatch(g, lines, first, last, image, start);
      first := last;
    }
    lines := AddEchoes(g, lines, 2, image, start);
    Finishes(g, image, start, Execute(start, image, g.partSize, lines), first);
    script := Some(lines);
  }

  lemma {:induction false} Starts(g: Geometry, image: bytes, start: Machine)
    requires Accepted(g) && |image| == g.imageSize && Fresh(start, image)
    ensures Edge(g, 0) == 0 && Filled(Prepared(start), image, start.disk, 0)
    ensures g.chunkSize > 0 ==> Chunks(g) > 0
    ensures g.chunkSize < 0 ==> Chunks(g) <= 0
  {
    assert start.disk == image[..0] + start.disk[0..];
    if g.chunkSize < 0 {
      NothingToCount(g.imageSize, g.chunkSize);
    } else {
      var x, c := g.imageSize + g.chunkSize - 1, g.chunkSize;
      assert x == (x / c) * c + x % c;
    }
  }

  lemma {:induction false} Finishes(g: Geometry, image: bytes, start: Machine, m: Machine, first: nat)
    requires Accepted(g) && |image| == g.imageSize && Fresh(start, image)
    requires g.chunkSize < 0 ==> m == Prepared(start)
    requires Positive(g) ==> first == Chunks(g) && Filled(m, image, start.disk, Edge(g, first))
    requires g.chunkSize > 0 && g.partSize < 0 ==> !m.ok
    ensures Filled(m, image, start.disk, |image|) <==> g.chunkSize > 0 && g.partSize > 0
  {
    if Positive(g) {
      LastEdge(g);
    } else if g.chunkSize < 0 {
      assert start.written[0] == 0;
    }
  }

  lemma {:induction false} LastEdge(g: Geometry)
    requires g.chunkSize > 0 && g.imageSize > 0
    ensures Chunks(g) >= 0 && Edge(g, Chunks(g)) == g.imageSize
  {
    var c, x := g.chunkSize, g.imageSize + g.chunkSize - 1;
    FloorPositive(x, c);
    assert x == (x / c) * c + x % c;
  }

  /** The size that the tests let through: the script writes nothing and still announces success. */
  lemma {:induction false} NegativeChunkIsAccepted()
    ensures var g := Geometry(1024, -512, 0x8000_0000);
            Accepted(g) && Chunks(g) == -1
  {
    assert 0x8000_0000 == -4194304 * -512;
    assert (-1024 + 513) / 512 == -1;
  }

  /** Lines that only print. */
  method AddEchoes(g: Geometry, lines: seq<Command>, n: nat, ghost image: bytes, ghost start: Machine)
    returns (r: seq<Command>)
    ensures Execute(start, image, g.partSize, r) == Execute(start, image, g.partSize, lines)
  {
    hide Execute;
    r := lines;
    for i := 0 to n
      invariant Execute(start, image, g.partSize, r) == Execute(start, image, g.partSize, lines)
    {
      ExecuteNext(start, image, g.partSize, r, Echo);
      r := r + [Echo];
    }
  }

  /** The lines before the first batch. */
  method Opening(g: Geometry, ghost image: bytes, ghost start: Machine) returns (r: seq<Command>)
    ensures Execute(start, image, g.partSize, r) == Prepared(start)
  {
    r := AddEchoes(g, [], 5, image, start);
    ExecuteNext(start, image, g.partSize, r, UsbStart);
    r := r + [UsbStart];
    ExecuteNext(start, image, g.partSize, r, ScsiScan);
    r := r + [ScsiScan];
    ExecuteNext(start, image, g.partSize, r, ScsiDevice);
    r := r + [ScsiDevice];
  }

  /** One batch: set the slots, name them, run them. */
  method AddBatch(g: Geometry, lines: seq<Command>, first: nat, last: nat, ghost image: bytes, ghost start: Machine)
    returns (r: seq<Command>)
    requires Accepted(g) && first < last <= Chunks(g) && |image| == g.imageSize
    ensures Positive(g) && Filled(Execute(start, image, g.partSize, lines), image, start.disk, Edge(g, first)) ==>
              Filled(Execute(start, image, g.partSize, r), image, start.disk, Edge(g, last))
    ensures Chunked(g) && g.partSize < 0 ==> !Execute(start, image, g.partSize, r).ok
  {
    hide Execute, Filled, Edge, Chunks, LoadAction, WriteAction, PerformAll, SlotsSet;
    var names := [];
    r := lines;
    ghost var before, m := Execute(start, image, g.partSize, r), Execute(start, image, g.partSize, r);
    NoSlots(m.env, g, first);
    for chunk := first to last
      invariant names == SlotNames(chunk - first)
      invariant m == Execute(start, image, g.partSize, r) && SameDisk(before, m)
      invariant SlotsSet(m.env, g, first, chunk - first)
    {
      var slot := chunk - first;
      var load, write := LoadAction(g, chunk), WriteAction(g, chunk);
      ExecuteNext(start, image, g.partSize, r, SetEnv(LoadSlot(slot), load));
      r := r + [SetEnv(LoadSlot(slot), load)];
      ExecuteNext(start, image, g.partSize, r, SetEnv(WriteSlot(slot), write));
      r := r + [SetEnv(WriteSlot(slot), write)];
      OneMoreSlot(m.env, g, first, slot);
      m := Execute(start, image, g.partSize, r);
      assert SlotNames(slot + 1) == SlotNames(slot) + [LoadSlot(slot), WriteSlot(slot)];
      names := names + [LoadSlot(slot), WriteSlot(slot)];
    }
    ExecuteNext(start, image, g.partSize, r, SetBatch(names));
    r := r + [SetBatch(names)];
    ExecuteNext(start, image, g.partSize, r, RunBatch);
    m := Execute(start, image, g.partSize, r);
    BatchRuns(before, m, g, image, start.disk, first, last - first);
    r := r + [RunBatch];
    r := AddEchoes(g, r, 1, image, start);
  }

  /** Setting variables does not touch the disk. */
  predicate SameDisk(m: Machine, m': Machine) {
    m'.disk == m.disk && m'.written == m.written && m'.ok == m.ok && m'.usb == m.usb && m'.selected == m.selected
  }

  /** What running the batch does, for both signs of the part size. */
  lemma {:induction false} BatchRuns(before: Machine, m: Machine, g: Geometry, image: bytes, was: bytes, first: nat, n: nat)
    requires Accepted(g) && first + n <= Chunks(g) && |image| == g.imageSize && n > 0
    requires SameDisk(before, m) && SlotsSet(m.env, g, first, n)
    ensures var done := PerformAll(m, image, g.partSize, SlotNames(n));
            && (Positive(g) && Filled(before, image, was, Edge(g, first)) ==> Filled(done, image, was, Edge(g, first + n)))
            && (Chunked(g) && g.partSize < 0 ==> !done.ok)
  {
    hide PerformAll, SlotsSet, Accepted, Chunks, Edge;
    if Positive(g) && Filled(before, image, was, Edge(g, first)) {
      BatchDone(m, g, image, was, first, n);
    }
    if Chunked(g) && g.partSize < 0 {
      BatchFails(m, g, image, first, n);
    }
  }

  /** A failure is never undone. */
  lemma {:induction false} FailureStays(m: Machine, image: bytes, partSize: int, names: seq<Name>, k: nat)
    requires k <= |names| && !PerformAll(m, image, partSize, names[..k]).ok
    ensures !PerformAll(m, image, partSize, names).ok
    decreases |names|
  {
    var n := |names|;
    if k < n {
      assert names[..n - 1][..k] == names[..k];
      FailureStays(m, image, partSize, names[..n - 1], k);
    } else {
      assert names[..k] == names;
    }
  }

  /** An image cannot be cut into parts of negative size, so there are no parts to load from. */
  lemma {:induction false} BatchFails(m: Machine, g: Geometry, image: bytes, first: nat, n: nat)
    requires Chunked(g) && g.partSize < 0 && first + n <= Chunks(g) && |image| == g.imageSize && n > 0
    requires SlotsSet(m.env, g, first, n)
    ensures !PerformAll(m, image, g.partSize, SlotNames(n)).ok
  {
    hide PerformAll, LoadAction, WriteAction, FloorDiv, FloorMod;
    LoadFails(m, g, image, first);
    var names := SlotNames(n);
    FirstName(n);
    NothingToPerform(m, image, g.partSize);
    PerformNext(m, image, g.partSize, [], LoadSlot(0));
    assert names[..1] == [] + [LoadSlot(0)];
    FailureStays(m, image, g.partSize, names, 1);
  }

  lemma {:induction false} FirstName(n: nat)
    requires n > 0
    ensures SlotNames(n) != [] && SlotNames(n)[0] == LoadSlot(0)
  {
    if n > 1 {
      FirstName(n - 1);
    }
  }

  lemma {:induction false} LoadFails(m: Machine, g: Geometry, image: bytes, chunk: nat)
    requires Chunked(g) && g.partSize < 0 && chunk < Chunks(g) && |image| == g.imageSize
    ensures !Perform(m, image, g.partSize, LoadAction(g, chunk)).ok
  {
    hide FloorDiv, FloorMod;
    ChunkStart(g, chunk);
    NothingToCount(g.imageSize, g.partSize);
  }

  lemma {:induction false} NoSlots(env: map<Name, Action>, g: Geometry, first: nat)
    requires g.partSize != 0
    ensures SlotsSet(env, g, first, 0) && SlotNames(0) == []
  {
  }

  lemma {:induction false} OneMoreSlot(env: map<Name, Action>, g: Geometry, first: nat, n: nat)
    requires g.partSize != 0 && SlotsSet(env, g, first, n)
    ensures SlotsSet(env[LoadSlot(n) := LoadAction(g, first + n)][WriteSlot(n) := WriteAction(g, first + n)],
                     g, first, n + 1)
  {
    hide LoadAction, WriteAction;
  }
}
