/** BPS patches (`src/patch/bps.rs`): the header and footer parse of
    `BpsPatch::new` and the command interpreter of `patched_rom`. A file is
    given as its bytes; the source ROM is given as its bytes. */
module Bps {
  import opened Io
  import ReadExt
  import Utils

  /** `B`, `P`, `S`, `1`. */
  const Marker: seq<byte> := [0x42, 0x50, 0x53, 0x31]
  /** Three little-endian CRC-32 values end the file. */
  const FooterSize: nat := 12

  datatype BpsError =
    | FormatMarker
    | SourceLength
    | TargetLength
    | SourceChecksum
    | TargetChecksum
    | PatchChecksum

  type Error = Failure<BpsError>

  /** What `BpsPatch::new` keeps of a patch file (paths and time stamps left out). */
  datatype BpsPatch = BpsPatch(
    sourceSize: nat,
    targetSize: nat,
    metadata: seq<byte>,
    patchOffset: nat,
    sourceChecksum: u32,
    targetChecksum: u32,
    patchChecksum: u32)

  /** A number read from the patch stream; a short stream is `UnexpectedEof`. */
  function Vlq(f: seq<byte>, pos: nat): (r: Result<(nat, nat), Error>)
    ensures r.Ok? <==> ReadExt.DecodeAt(f, pos).Some?
    ensures r.Ok? ==> r.value == ReadExt.DecodeAt(f, pos).value
    ensures r.Err? ==> r.error == Eof
  {
    match ReadExt.DecodeAt(f, pos)
    case None => Err(Eof)
    case Some(v) => Ok(v)
  }

  /** The patch `BpsPatch::new` reads from the bytes `f` of a patch file. */
  function Header(f: seq<byte>): (r: Result<BpsPatch, Error>)
    ensures |f| < 4 ==> r == Err(Eof)
    ensures |f| >= 4 ==> (r == Err(Format(FormatMarker)) <==> f[..4] != Marker)
    ensures r.Ok? ==> |f| >= FooterSize && f[..4] == Marker
  {
    if |f| < 4 then Err(Eof)
    else if f[..4] != Marker then Err(Format(FormatMarker))
    else
      match Vlq(f, 4)
      case Err(e) => Err(e)
      case Ok((sourceSize, p1)) =>
        match Vlq(f, p1)
        case Err(e) => Err(e)
        case Ok((targetSize, p2)) =>
          match Vlq(f, p2)
          case Err(e) => Err(e)
          case Ok((metadataSize, p3)) =>
            if p3 + metadataSize > |f| then Err(Eof)
            else if |f| < FooterSize then Err(NegativeSeek)
            else
              var footer := |f| - FooterSize;
              Ok(BpsPatch(sourceSize, targetSize, f[p3..p3 + metadataSize], p3 + metadataSize,
                          U32Le(f, footer), U32Le(f, footer + 4), U32Le(f, footer + 8)))
  }

  /** A header read from `f` holds the three numbers that follow the
      marker, the metadata they announce and the three checksums of the
      footer. */
  lemma HeaderFields(f: seq<byte>)
    requires Header(f).Ok?
    ensures
      var h := Header(f).value;
      && h.sourceChecksum == U32Le(f, |f| - 12)
      && h.targetChecksum == U32Le(f, |f| - 8)
      && h.patchChecksum == U32Le(f, |f| - 4)
    ensures
      var h := Header(f).value;
      var d1 := ReadExt.DecodeAt(f, 4);
      && d1.Some? && d1.value.0 == h.sourceSize
      && var d2 := ReadExt.DecodeAt(f, d1.value.1);
      && d2.Some? && d2.value.0 == h.targetSize
      && var d3 := ReadExt.DecodeAt(f, d2.value.1);
      && d3.Some? && d3.value.0 == |h.metadata|
      && h.patchOffset == d3.value.1 + |h.metadata| <= |f|
      && h.metadata == f[d3.value.1..h.patchOffset]
  {
    var p1 := Vlq(f, 4).value.1;
    var p2 := Vlq(f, p1).value.1;
    var (size, p3) := Vlq(f, p2).value;
    var footer := |f| - FooterSize;
    assert Header(f).value == BpsPatch(Vlq(f, 4).value.0, Vlq(f, p1).value.0, f[p3..p3 + size], p3 + size,
                                       U32Le(f, footer), U32Le(f, footer + 4), U32Le(f, footer + 8));
  }

  /** `BpsPatch::new`: marker, three numbers, the metadata, then a seek to
      twelve bytes before the end for the footer. */
  method New(f: seq<byte>) returns (r: Result<BpsPatch, Error>)
    ensures r == Header(f)
  {
    if |f| < 4 {
      return Err(Eof);
    }
    if f[..4] != Marker {
      return Err(Format(FormatMarker));
    }
    var sourceSize := ReadExt.ReadVlq(f, 4);
    if sourceSize.None? {
      return Err(Eof);
    }
    var targetSize := ReadExt.ReadVlq(f, sourceSize.value.1);
    if targetSize.None? {
      return Err(Eof);
    }
    var metadataSize := ReadExt.ReadVlq(f, targetSize.value.1);
    if metadataSize.None? {
      return Err(Eof);
    }
    var (size, start) := metadataSize.value;
    if start + size > |f| {
      return Err(Eof);
    }
    var metadata := f[start..start + size];
    var patchOffset := start + size;
    if |f| < FooterSize {
      return Err(NegativeSeek);
    }
    var footer := |f| - FooterSize;
    var sourceChecksum := U32Le(f, footer);
    var targetChecksum := U32Le(f, footer + 4);
    var patchChecksum := U32Le(f, footer + 8);
    r := Ok(BpsPatch(sourceSize.value.0, targetSize.value.0, metadata, patchOffset,
                     sourceChecksum, targetChecksum, patchChecksum));
    assert Vlq(f, 4) == Ok(sourceSize.value) && Vlq(f, sourceSize.value.1) == Ok(targetSize.value);
    assert Vlq(f, targetSize.value.1) == Ok((size, start));
  }

  datatype Action = SourceRead | TargetRead | SourceCopy | TargetCopy

  function Code(a: Action): nat {
    match a
    case SourceRead => 0
    case TargetRead => 1
    case SourceCopy => 2
    case TargetCopy => 3
  }

  /** A command word: the action in its low two bits, the length minus one
      above them. */
  function Command(data: nat): (c: (Action, nat))
    ensures c.1 >= 1
    ensures data == (c.1 - 1) * 4 + Code(c.0)
  {
    var action :=
      if data % 4 == 0 then SourceRead
      else if data % 4 == 1 then TargetRead
      else if data % 4 == 2 then SourceCopy
      else TargetCopy;
    (action, data / 4 + 1)
  }

  /** The variables of the `patched_rom` loop: the patch cursor, the output
      cursor, the two relative cursors and the target buffer. */
  datatype State = State(pos: nat, out: nat, sourceRel: nat, targetRel: nat, target: seq<byte>)

  /** `target[to..to + n]` filled byte by byte, in order, from
      `target[from..from + n]`, where a byte written early may be read again
      later. */
  function CopyWithin(t: seq<byte>, from: nat, to: nat, n: nat): (r: seq<byte>)
    requires from + n <= |t| && to + n <= |t|
    ensures |r| == |t|
    ensures forall i :: 0 <= i < |t| && !(to <= i < to + n) ==> r[i] == t[i]
    decreases n
  {
    if n == 0 then t
    else
      var r := CopyWithin(t, from, to, n - 1);
      r[to + n - 1 := r[from + n - 1]]
  }

  /** One command of the patch, read at `st.pos`. Each failure is the one the
      source meets first; as the target buffer is discarded on failure, all
      the bounds of a command are decided before any of its bytes is
      written. */
  function Step(f: seq<byte>, source: seq<byte>, st: State): (r: Result<State, Error>)
    ensures r.Ok? ==> st.pos < r.value.pos <= |f|
    ensures r.Ok? ==> ReadExt.DecodeAt(f, st.pos).Some?
    ensures r.Ok? ==>
      var length := Command(ReadExt.DecodeAt(f, st.pos).value.0).1;
      && r.value.out == st.out + length <= |st.target|
      && |r.value.target| == |st.target|
  {
    match ReadExt.DecodeAt(f, st.pos)
    case None => Err(Eof)
    case Some((data, p1)) =>
      var (action, length) := Command(data);
      match action
      case SourceRead => SourceReadStep(source, st, length, p1)
      case TargetRead => TargetReadStep(f, st, length, p1)
      case SourceCopy => SourceCopyStep(f, source, st, length, p1)
      case TargetCopy => TargetCopyStep(f, st, length, p1)
  }

  /** `SourceRead`: the source bytes under the output cursor; `p1` is the
      position after the command. */
  function SourceReadStep(source: seq<byte>, st: State, length: nat, p1: nat): (r: Result<State, Error>)
    ensures r.Ok? ==> r.value.pos == p1
    ensures r.Ok? ==> r.value.out == st.out + length <= |st.target| && |r.value.target| == |st.target|
  {
    var out := st.out;
    if out + length > |source| || out + length > |st.target| then Err(Panic)
    else Ok(st.(pos := p1, out := out + length,
                target := Splice(st.target, out, source[out..out + length])))
  }

  /** `TargetRead`: the `length` bytes that follow the command in the patch. */
  function TargetReadStep(f: seq<byte>, st: State, length: nat, p1: nat): (r: Result<State, Error>)
    ensures r.Ok? ==> r.value.pos == p1 + length <= |f|
    ensures r.Ok? ==> r.value.out == st.out + length <= |st.target| && |r.value.target| == |st.target|
  {
    var out := st.out;
    if p1 + length <= |f| && out + length <= |st.target| then
      Ok(st.(pos := p1 + length, out := out + length,
             target := Splice(st.target, out, f[p1..p1 + length])))
    else
      // byte k of the command fails to read when p1 + k == |f|, and to
      // be stored when out + k == |target|; the read comes first
      var readFails := |f| - p1;
      var storeFails := if out <= |st.target| then |st.target| - out else 0;
      if readFails <= storeFails then Err(Eof) else Err(Panic)
  }

  /** `SourceCopy`: the source cursor moves by the signed number after the
      command, then `length` source bytes are copied from there. */
  function SourceCopyStep(f: seq<byte>, source: seq<byte>, st: State, length: nat, p1: nat): (r: Result<State, Error>)
    ensures r.Ok? ==> p1 < r.value.pos <= |f|
    ensures r.Ok? ==> r.value.out == st.out + length <= |st.target| && |r.value.target| == |st.target|
  {
    match ReadExt.DecodeAt(f, p1)
    case None => Err(Eof)
    case Some((delta, p2)) =>
      var rel := st.sourceRel + Utils.SignedValue(delta);
      var out := st.out;
      if rel < 0 || rel + length > |source| || out + length > |st.target| then Err(Panic)
      else Ok(st.(pos := p2, out := out + length, sourceRel := rel + length,
                  target := Splice(st.target, out, source[rel..rel + length])))
  }

  /** `TargetCopy`: the target cursor moves by the signed number after the
      command, then `length` bytes are copied one by one from there to the
      output cursor. */
  function TargetCopyStep(f: seq<byte>, st: State, length: nat, p1: nat): (r: Result<State, Error>)
    ensures r.Ok? ==> p1 < r.value.pos <= |f|
    ensures r.Ok? ==> r.value.out == st.out + length <= |st.target| && |r.value.target| == |st.target|
  {
    match ReadExt.DecodeAt(f, p1)
    case None => Err(Eof)
    case Some((delta, p2)) =>
      var rel := st.targetRel + Utils.SignedValue(delta);
      var out := st.out;
      if rel < 0 || rel + length > |st.target| || out + length > |st.target| then Err(Panic)
      else Ok(st.(pos := p2, out := out + length, targetRel := rel + length,
                  target := CopyWithin(st.target, rel, out, length)))
  }

  /** A command writes only the bytes between the old and the new output
      cursor. */
  lemma StepKeepsOutside(f: seq<byte>, source: seq<byte>, st: State)
    requires Step(f, source, st).Ok?
    ensures var next := Step(f, source, st).value;
      forall i :: 0 <= i < |st.target| && !(st.out <= i < next.out) ==> next.target[i] == st.target[i]
  {
  }

  /** Commands run while the patch cursor is below `end`. */
  function Run(f: seq<byte>, source: seq<byte>, end: nat, st: State): (r: Result<State, Error>)
    requires end <= |f|
    ensures r.Ok? ==> |r.value.target| == |st.target|
    ensures r.Ok? ==> st.out <= r.value.out && (st.out <= |st.target| ==> r.value.out <= |st.target|)
    ensures r.Ok? ==> r.value.pos >= end
    decreases |f| - st.pos
  {
    if st.pos >= end then Ok(st)
    else
      match Step(f, source, st)
      case Err(e) => Err(e)
      case Ok(next) => Run(f, source, end, next)
  }

  /** The initial state: the cursor at the first command, an all-zero target. */
  function Start(p: BpsPatch): State {
    State(p.patchOffset, 0, 0, 0, Zeros(p.targetSize))
  }

  /** What `patched_rom` returns for the patch file `f` and the source ROM
      `source`, with `crc` for CRC-32. */
  function Apply(p: BpsPatch, f: seq<byte>, source: seq<byte>, crc: Checksum): (r: Result<seq<byte>, Error>)
    ensures |source| != p.sourceSize ==> r == Err(Format(SourceLength))
    ensures |source| == p.sourceSize && crc(source) != p.sourceChecksum ==> r == Err(Format(SourceChecksum))
    ensures r.Ok? ==> |r.value| == p.targetSize && crc(r.value) == p.targetChecksum
    ensures r.Ok? ==> |source| == p.sourceSize && crc(source) == p.sourceChecksum
    ensures |source| == p.sourceSize && crc(source) == p.sourceChecksum && |f| < FooterSize ==> r == Err(Panic)
    ensures |source| == p.sourceSize && crc(source) == p.sourceChecksum && |f| >= FooterSize ==>
      var run := Run(f, source, |f| - FooterSize, Start(p));
      && (run.Err? ==> r == Err(run.error))
      && (run.Ok? ==> r == if crc(run.value.target) == p.targetChecksum then Ok(run.value.target)
                           else Err(Format(TargetChecksum)))
  {
    if |source| != p.sourceSize then Err(Format(SourceLength))
    else if crc(source) != p.sourceChecksum then Err(Format(SourceChecksum))
    else if |f| < FooterSize then Err(Panic)  // `stream_len - 12` underflows
    else
      match Run(f, source, |f| - FooterSize, Start(p))
      case Err(e) => Err(e)
      case Ok(st) =>
        if crc(st.target) != p.targetChecksum then Err(Format(TargetChecksum))
        else Ok(st.target)
  }

  /** What `TargetCopy` reads: when the source window starts at or after the
      output cursor, the bytes as they were; when it starts before, a byte
      below the output cursor as it was, and a byte at or past it as this
      same copy wrote it earlier. */
  lemma {:induction false} CopyWithinReads(t: seq<byte>, from: nat, to: nat, n: nat, k: nat)
    requires from + n <= |t| && to + n <= |t| && k < n
    ensures var r := CopyWithin(t, from, to, n);
      r[to + k] == if from >= to || from + k < to then t[from + k] else r[from + k]
    decreases n
  {
    var prev := CopyWithin(t, from, to, n - 1);
    assert CopyWithin(t, from, to, n) == prev[to + n - 1 := prev[from + n - 1]];
    if k < n - 1 {
      CopyWithinReads(t, from, to, n - 1, k);
    } else {
      assert !(to <= from + k < to + n - 1) || from + k < to + n - 1;
    }
  }

  /** The action of the command at `st.pos`. */
  function ActionAt(f: seq<byte>, st: State): Action
    requires ReadExt.DecodeAt(f, st.pos).Some?
  {
    Command(ReadExt.DecodeAt(f, st.pos).value.0).0
  }

  /** `SourceRead` copies the source at the output cursor's own offset and
      moves neither relative cursor. */
  lemma SourceReadContents(f: seq<byte>, source: seq<byte>, st: State)
    requires Step(f, source, st).Ok? && ActionAt(f, st) == SourceRead
    ensures
      var (data, p1) := ReadExt.DecodeAt(f, st.pos).value;
      var length := Command(data).1;
      var next := Step(f, source, st).value;
      && next.sourceRel == st.sourceRel && next.targetRel == st.targetRel && next.pos == p1
      && forall i :: st.out <= i < st.out + length ==> next.target[i] == source[i]
  {
  }

  /** `TargetRead` copies the next `length` bytes of the patch, in order, and
      moves the patch cursor past them. */
  lemma TargetReadContents(f: seq<byte>, source: seq<byte>, st: State)
    requires Step(f, source, st).Ok? && ActionAt(f, st) == TargetRead
    ensures
      var (data, p1) := ReadExt.DecodeAt(f, st.pos).value;
      var length := Command(data).1;
      var next := Step(f, source, st).value;
      && next.sourceRel == st.sourceRel && next.targetRel == st.targetRel && next.pos == p1 + length
      && forall i :: st.out <= i < st.out + length ==> next.target[i] == f[p1 + (i - st.out)]
  {
  }

  /** `SourceCopy` moves the source cursor by the signed delta that follows
      the command, copies from there and leaves the cursor after the copy. */
  lemma SourceCopyContents(f: seq<byte>, source: seq<byte>, st: State)
    requires Step(f, source, st).Ok? && ActionAt(f, st) == SourceCopy
    ensures
      var (data, p1) := ReadExt.DecodeAt(f, st.pos).value;
      var length := Command(data).1;
      var next := Step(f, source, st).value;
      && ReadExt.DecodeAt(f, p1).Some?
      && var (delta, p2) := ReadExt.DecodeAt(f, p1).value;
      && var rel := st.sourceRel + Utils.SignedValue(delta);
      && 0 <= rel && next.pos == p2
      && next.sourceRel == rel + length && next.targetRel == st.targetRel
      && forall i :: st.out <= i < st.out + length ==> next.target[i] == source[rel + (i - st.out)]
  {
  }

  /** `TargetCopy` moves the target cursor by the signed delta that follows
      the command and copies from the target itself: a byte before the
      output cursor as it was, a byte at or past it as this copy wrote it. */
  lemma TargetCopyContents(f: seq<byte>, source: seq<byte>, st: State)
    requires Step(f, source, st).Ok? && ActionAt(f, st) == TargetCopy
    ensures
      var (data, p1) := ReadExt.DecodeAt(f, st.pos).value;
      var length := Command(data).1;
      var next := Step(f, source, st).value;
      && ReadExt.DecodeAt(f, p1).Some?
      && var (delta, p2) := ReadExt.DecodeAt(f, p1).value;
      && var rel := st.targetRel + Utils.SignedValue(delta);
      && 0 <= rel && next.pos == p2
      && next.targetRel == rel + length && next.sourceRel == st.sourceRel
      && forall i :: st.out <= i < st.out + length ==>
           next.target[i] == if rel >= st.out || rel + (i - st.out) < st.out then st.target[rel + (i - st.out)]
                             else next.target[rel + (i - st.out)]
  {
    var (data, p1) := ReadExt.DecodeAt(f, st.pos).value;
    var length := Command(data).1;
    var rel := st.targetRel + Utils.SignedValue(ReadExt.DecodeAt(f, p1).value.0);
    var next := Step(f, source, st).value;
    assert next.target == CopyWithin(st.target, rel, st.out, length);
    forall i | st.out <= i < st.out + length
      ensures next.target[i] == if rel >= st.out || rel + (i - st.out) < st.out then st.target[rel + (i - st.out)]
                                else next.target[rel + (i - st.out)]
    {
      CopyWithinReads(st.target, rel, st.out, length, i - st.out);
    }
  }

  /** Every byte at or past the output cursor is still zero. */
  ghost predicate ZeroFromCursor(st: State) {
    forall i :: st.out <= i < |st.target| ==> st.target[i] == 0
  }

  /** Commands only write below the output cursor they leave behind, so the
      part of the target no command has reached stays zero. */
  lemma {:induction false} RunKeepsZeroTail(f: seq<byte>, source: seq<byte>, end: nat, st: State)
    requires end <= |f| && ZeroFromCursor(st) && Run(f, source, end, st).Ok?
    ensures ZeroFromCursor(Run(f, source, end, st).value)
    decreases |f| - st.pos
  {
    if st.pos < end {
      var next := Step(f, source, st).value;
      StepKeepsOutside(f, source, st);
      assert ZeroFromCursor(next);
      RunKeepsZeroTail(f, source, end, next);
    }
  }

  /** A successful application: the commands ran up to the footer from the
      initial state, and the target past the last output cursor is zero. */
  lemma ApplyOutcome(p: BpsPatch, f: seq<byte>, source: seq<byte>, crc: Checksum)
    requires Apply(p, f, source, crc).Ok?
    ensures |f| >= FooterSize
    ensures
      var run := Run(f, source, |f| - FooterSize, Start(p));
      && run.Ok? && run.value.target == Apply(p, f, source, crc).value
      && run.value.pos >= |f| - FooterSize && run.value.out <= p.targetSize
      && forall i :: run.value.out <= i < p.targetSize ==> run.value.target[i] == 0
  {
    RunKeepsZeroTail(f, source, |f| - FooterSize, Start(p));
  }

  /** The byte-by-byte copy of `TargetCopy`, inside the target buffer. */
  method CopyWithinArray(target: array<byte>, from: nat, to: nat, length: nat)
    requires from + length <= target.Length && to + length <= target.Length
    modifies target
    ensures target[..] == CopyWithin(old(target[..]), from, to, length)
  {
    for k := 0 to length
      invariant target[..] == CopyWithin(old(target[..]), from, to, k)
    {
      target[to + k] := target[from + k];
    }
  }

  /** How the in-place cursors `c` and buffer contents `t` after one pass
      of the loop body agree with `Step` from state `st`. */
  predicate Follows(step: Result<State, Error>, c: Result<(nat, nat, nat, nat), Error>, t: seq<byte>) {
    && (c.Err? ==> step == Err(c.error))
    && (c.Ok? ==> step == Ok(State(c.value.0, c.value.1, c.value.2, c.value.3, t)))
  }

  /** One pass of the `patched_rom` loop body: read a command at `pos` and
      carry it out on `target` in place, returning the new cursors. */
  method Execute(f: seq<byte>, source: seq<byte>, target: array<byte>,
                 pos: nat, out: nat, sourceRel: nat, targetRel: nat)
    returns (r: Result<(nat, nat, nat, nat), Error>)
    requires out <= target.Length
    modifies target
    ensures Follows(Step(f, source, State(pos, out, sourceRel, targetRel, old(target[..]))), r, target[..])
  {
    var command := ReadExt.ReadVlq(f, pos);
    if command.None? {
      return Err(Eof);
    }
    var (data, next) := command.value;
    var (action, length) := Command(data);
    match action {
      case SourceRead =>
        r := ExecuteSourceRead(source, target, pos, out, sourceRel, targetRel, length, next);
      case TargetRead =>
        r := ExecuteTargetRead(f, target, pos, out, sourceRel, targetRel, length, next);
      case SourceCopy =>
        r := ExecuteSourceCopy(f, source, target, pos, out, sourceRel, targetRel, length, next);
      case TargetCopy =>
        r := ExecuteTargetCopy(f, target, pos, out, sourceRel, targetRel, length, next);
    }
  }

  method ExecuteSourceRead(source: seq<byte>, target: array<byte>,
                           ghost pos: nat, out: nat, sourceRel: nat, targetRel: nat, length: nat, next: nat)
    returns (r: Result<(nat, nat, nat, nat), Error>)
    modifies target
    ensures Follows(SourceReadStep(source, State(pos, out, sourceRel, targetRel, old(target[..])), length, next),
                    r, target[..])
  {
    if out + length > |source| || out + length > target.Length {
      return Err(Panic);
    }
    CopyIn(target, out, source, out, length);
    return Ok((next, out + length, sourceRel, targetRel));
  }

  method ExecuteTargetRead(f: seq<byte>, target: array<byte>,
                           ghost pos: nat, out: nat, sourceRel: nat, targetRel: nat, length: nat, next: nat)
    returns (r: Result<(nat, nat, nat, nat), Error>)
    requires out <= target.Length
    modifies target
    ensures Follows(TargetReadStep(f, State(pos, out, sourceRel, targetRel, old(target[..])), length, next),
                    r, target[..])
  {
    if !(next + length <= |f| && out + length <= target.Length) {
      if |f| - next <= target.Length - out {
        return Err(Eof);
      }
      return Err(Panic);
    }
    CopyIn(target, out, f, next, length);
    return Ok((next + length, out + length, sourceRel, targetRel));
  }

  method ExecuteSourceCopy(f: seq<byte>, source: seq<byte>, target: array<byte>,
                           ghost pos: nat, out: nat, sourceRel: nat, targetRel: nat, length: nat, next: nat)
    returns (r: Result<(nat, nat, nat, nat), Error>)
    modifies target
    ensures Follows(SourceCopyStep(f, source, State(pos, out, sourceRel, targetRel, old(target[..])), length, next),
                    r, target[..])
  {
    var delta := ReadExt.ReadVlq(f, next);
    if delta.None? {
      return Err(Eof);
    }
    var rel := sourceRel + Utils.SignedValue(delta.value.0);
    if rel < 0 || rel + length > |source| || out + length > target.Length {
      return Err(Panic);
    }
    var from: nat := rel;
    CopyIn(target, out, source, from, length);
    return Ok((delta.value.1, out + length, from + length, targetRel));
  }

  method ExecuteTargetCopy(f: seq<byte>, target: array<byte>,
                           ghost pos: nat, out: nat, sourceRel: nat, targetRel: nat, length: nat, next: nat)
    returns (r: Result<(nat, nat, nat, nat), Error>)
    modifies target
    ensures Follows(TargetCopyStep(f, State(pos, out, sourceRel, targetRel, old(target[..])), length, next),
                    r, target[..])
  {
    var delta := ReadExt.ReadVlq(f, next);
    if delta.None? {
      return Err(Eof);
    }
    var rel := targetRel + Utils.SignedValue(delta.value.0);
    if rel < 0 || rel + length > target.Length || out + length > target.Length {
      return Err(Panic);
    }
    var from: nat := rel;
    CopyWithinArray(target, from, out, length);
    return Ok((delta.value.1, out + length, sourceRel, from + length));
  }

  /** The `patched_rom` loop: commands run in place on `target` while the
      patch cursor is below `end`. */
  method RunCommands(f: seq<byte>, source: seq<byte>, target: array<byte>, start: nat, end: nat)
    returns (r: Result<(nat, nat, nat, nat), Error>)
    requires end <= |f|
    modifies target
    ensures Follows(Run(f, source, end, State(start, 0, 0, 0, old(target[..]))), r, target[..])
  {
    ghost var init := State(start, 0, 0, 0, target[..]);
    var pos: nat, out: nat, sourceRel: nat, targetRel: nat := start, 0, 0, 0;
    while pos < end
      invariant out <= target.Length
      invariant Run(f, source, end, init) == Run(f, source, end, State(pos, out, sourceRel, targetRel, target[..]))
      decreases |f| - pos
    {
      ghost var st := State(pos, out, sourceRel, targetRel, target[..]);
      var step := Execute(f, source, target, pos, out, sourceRel, targetRel);
      if step.Err? {
        assert Run(f, source, end, st) == Err(step.error);
        return Err(step.error);
      }
      pos, out, sourceRel, targetRel := step.value.0, step.value.1, step.value.2, step.value.3;
      assert Run(f, source, end, st) == Run(f, source, end, State(pos, out, sourceRel, targetRel, target[..]));
    }
    return Ok((pos, out, sourceRel, targetRel));
  }

  /** `patched_rom`: check the source, allocate the target, run the commands
      while the cursor is before the footer, check the target. */
  method PatchedRom(p: BpsPatch, f: seq<byte>, source: seq<byte>, crc: Checksum)
    returns (r: Result<seq<byte>, Error>)
    ensures r == Apply(p, f, source, crc)
  {
    if |source| != p.sourceSize {
      return Err(Format(SourceLength));
    }
    if crc(source) != p.sourceChecksum {
      return Err(Format(SourceChecksum));
    }
    var target := new byte[p.targetSize](_ => 0);
    assert target[..] == Zeros(p.targetSize);
    if |f| < FooterSize {
      return Err(Panic);
    }
    var run := RunCommands(f, source, target, p.patchOffset, |f| - FooterSize);
    if run.Err? {
      return Err(run.error);
    }
    var result := target[..];
    if crc(result) != p.targetChecksum {
      return Err(Format(TargetChecksum));
    }
    return Ok(result);
  }
}
