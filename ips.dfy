/** IPS patches (`src/patch/ips.rs`): the record scan of `IpsPatch::new`,
    which computes the size of the patched ROM, and the in-place apply pass
    of `patched_rom`. A file is given as its bytes. */
module Ips {
  import opened Io

  /** `P`, `A`, `T`, `C`, `H`. */
  const Marker: seq<byte> := [0x50, 0x41, 0x54, 0x43, 0x48]
  /** The offset `EOF` (0x45 0x4F 0x46) ends the record list. */
  const EofMarker: nat := 0x454F46

  datatype IpsError = FormatMarker

  type Error = Failure<IpsError>

  /** A record: `count` copies of `value` (a record whose size field is 0),
      or literal bytes. */
  datatype Record =
    | Rle(offset: nat, count: nat, value: byte)
    | Literal(offset: nat, data: seq<byte>)
  {
    function Length(): nat {
      match this
      case Rle(_, count, _) => count
      case Literal(_, data) => |data|
    }

    function End(): nat { offset + Length() }

    /** The bytes this record writes from `offset` on. */
    function Bytes(): (b: seq<byte>)
      ensures |b| == Length()
    {
      match this
      case Rle(_, count, value) => Repeat(value, count)
      case Literal(_, data) => data
    }

    predicate Covers(i: nat) { offset <= i < End() }
  }

  function Repeat(value: byte, count: nat): (s: seq<byte>)
    ensures |s| == count && forall i :: 0 <= i < count ==> s[i] == value
  {
    seq(count, _ => value)
  }

  /** What `IpsPatch::new` keeps: the size it computed and the optional
      truncation size (paths left out). */
  datatype IpsPatch = IpsPatch(targetSize: nat, truncatedSize: Option<nat>)

  /** The records from `pos` up to the `EOF` offset, and the position just
      past that offset. Every short read is `UnexpectedEof`. */
  function Records(f: seq<byte>, pos: nat): (r: Result<(seq<Record>, nat), Error>)
    ensures r.Err? ==> r.error == Eof
    ensures r.Ok? ==> pos + 3 <= r.value.1 <= |f| && U24Be(f, r.value.1 - 3) == EofMarker
    ensures r.Ok? ==> forall rec :: rec in r.value.0 ==> rec.offset != EofMarker
    decreases |f| - pos
  {
    if pos + 3 > |f| then Err(Eof)
    else
      var offset := U24Be(f, pos);
      if offset == EofMarker then Ok(([], pos + 3))
      else if pos + 5 > |f| then Err(Eof)
      else
        var size := U16Be(f, pos + 3);
        var record: Option<(Record, nat)> :=
          if size == 0 then
            if pos + 8 > |f| then None
            else Some((Rle(offset, U16Be(f, pos + 5), f[pos + 7]), pos + 8))
          else if pos + 5 + size > |f| then None
          else Some((Literal(offset, f[pos + 5..pos + 5 + size]), pos + 5 + size));
        if record.None? then Err(Eof)
        else
          var (rec, next) := record.value;
          Prepend(rec, Records(f, next))
  }

  /** `rec` in front of the records scanned after it. */
  function Prepend(rec: Record, scanned: Result<(seq<Record>, nat), Error>): Result<(seq<Record>, nat), Error> {
    match scanned
    case Err(e) => Err(e)
    case Ok((rest, end)) => Ok(([rec] + rest, end))
  }

  function Max(a: nat, b: nat): nat { if a < b then b else a }

  /** `acc` raised to the end of every record, in file order. */
  function MaxEnd(acc: nat, recs: seq<Record>): (m: nat)
    ensures acc <= m && forall rec :: rec in recs ==> rec.End() <= m
    decreases |recs|
  {
    if recs == [] then acc
    else MaxEnd(Max(acc, recs[0].End()), recs[1..])
  }

  /** The 24-bit truncation size after the `EOF` offset, if three bytes are left. */
  function TruncatedSize(f: seq<byte>, end: nat): (t: Option<nat>)
    ensures t.Some? <==> end + 3 <= |f|
  {
    if end + 3 <= |f| then Some(U24Be(f, end)) else None
  }

  /** The patch built from the records scanned so far, starting from size `acc`. */
  function Finish(f: seq<byte>, acc: nat, scanned: Result<(seq<Record>, nat), Error>): Result<IpsPatch, Error> {
    match scanned
    case Err(e) => Err(e)
    case Ok((recs, end)) => Ok(IpsPatch(MaxEnd(acc, recs), TruncatedSize(f, end)))
  }

  /** The patch `IpsPatch::new` reads from the bytes `f` of a patch file when
      the source ROM is `sourceLength` bytes long. */
  function Scan(f: seq<byte>, sourceLength: nat): (r: Result<IpsPatch, Error>)
    ensures |f| < 5 ==> r == Err(Eof)
    ensures |f| >= 5 ==> (r == Err(Format(FormatMarker)) <==> f[..5] != Marker)
    ensures r.Ok? ==> f[..5] == Marker
  {
    if |f| < 5 then Err(Eof)
    else if f[..5] != Marker then Err(Format(FormatMarker))
    else ScanFrom(f, sourceLength, 5)
  }

  /** The loop of `IpsPatch::new` from `pos` on, with the size `acc` reached
      so far. A literal record is skipped by a seek that may pass the end of
      the file; the next read then fails. */
  function ScanFrom(f: seq<byte>, acc: nat, pos: nat): (r: Result<IpsPatch, Error>)
    ensures r.Err? ==> r.error == Eof
    ensures r.Ok? ==> acc <= r.value.targetSize
    decreases |f| + 0x1_0000 - pos
  {
    if pos + 3 > |f| then Err(Eof)
    else
      var offset := U24Be(f, pos);
      if offset == EofMarker then Ok(IpsPatch(acc, TruncatedSize(f, pos + 3)))
      else if pos + 5 > |f| then Err(Eof)
      else
        var size := U16Be(f, pos + 3);
        if size == 0 then
          if pos + 8 > |f| then Err(Eof)
          else ScanFrom(f, Max(acc, offset + U16Be(f, pos + 5)), pos + 8)
        else ScanFrom(f, Max(acc, offset + size), pos + 5 + size)
  }

  /** The scan loop computes, from the record list, the largest record end
      and the truncation size after the `EOF` offset. */
  lemma {:induction false} ScanFromRecords(f: seq<byte>, acc: nat, pos: nat)
    ensures ScanFrom(f, acc, pos) == Finish(f, acc, Records(f, pos))
    decreases |f| + 0x1_0000 - pos
  {
    if pos + 5 <= |f| && U24Be(f, pos) != EofMarker {
      var offset, size := U24Be(f, pos), U16Be(f, pos + 3);
      if size == 0 {
        if pos + 8 <= |f| {
          var rec := Rle(offset, U16Be(f, pos + 5), f[pos + 7]);
          assert ScanFrom(f, acc, pos) == ScanFrom(f, Max(acc, rec.End()), pos + 8);
          assert Records(f, pos) == Prepend(rec, Records(f, pos + 8));
          ScanFromRecords(f, Max(acc, rec.End()), pos + 8);
          FinishPrepend(f, acc, rec, Records(f, pos + 8));
        }
      } else if pos + 5 + size <= |f| {
        var rec := Literal(offset, f[pos + 5..pos + 5 + size]);
        assert ScanFrom(f, acc, pos) == ScanFrom(f, Max(acc, rec.End()), pos + 5 + size);
        assert Records(f, pos) == Prepend(rec, Records(f, pos + 5 + size));
        ScanFromRecords(f, Max(acc, rec.End()), pos + 5 + size);
        FinishPrepend(f, acc, rec, Records(f, pos + 5 + size));
      } else {
        // the seek past the end of the file makes the next read fail
        assert ScanFrom(f, Max(acc, offset + size), pos + 5 + size) == Err(Eof);
        assert Records(f, pos) == Err(Eof);
      }
    }
  }

  /** A record in front raises the starting size to its end. */
  lemma FinishPrepend(f: seq<byte>, acc: nat, rec: Record, scanned: Result<(seq<Record>, nat), Error>)
    ensures Finish(f, acc, Prepend(rec, scanned)) == Finish(f, Max(acc, rec.End()), scanned)
  {
    if scanned.Ok? {
      var (rest, end) := scanned.value;
      assert ([rec] + rest)[1..] == rest;
    }
  }

  /** The size is reached: it is the starting size or the end of some record. */
  lemma {:induction false} MaxEndAttained(acc: nat, recs: seq<Record>)
    ensures MaxEnd(acc, recs) == acc || exists rec :: rec in recs && rec.End() == MaxEnd(acc, recs)
    decreases |recs|
  {
    if recs != [] {
      MaxEndAttained(Max(acc, recs[0].End()), recs[1..]);
      if MaxEnd(acc, recs) != MaxEnd(Max(acc, recs[0].End()), recs[1..]) {
        assert false;
      }
      var m := MaxEnd(acc, recs);
      if m != Max(acc, recs[0].End()) {
        var rec :| rec in recs[1..] && rec.End() == m;
        assert rec in recs;
      }
    }
  }

  /** A scanned patch is as large as the source ROM and the end of every
      record, and no larger than the largest of these; the truncation size is
      the 24-bit number after the `EOF` offset when the file holds one. */
  lemma ScanSize(f: seq<byte>, sourceLength: nat)
    requires Scan(f, sourceLength).Ok?
    ensures Records(f, 5).Ok?
    ensures Scan(f, sourceLength) == Finish(f, sourceLength, Records(f, 5))
    ensures var p := Scan(f, sourceLength).value;
      var (recs, end) := Records(f, 5).value;
      && sourceLength <= p.targetSize
      && (forall rec :: rec in recs ==> rec.End() <= p.targetSize)
      && (p.targetSize == sourceLength || exists rec :: rec in recs && rec.End() == p.targetSize)
      && p.truncatedSize == TruncatedSize(f, end)
  {
    ScanFromRecords(f, sourceLength, 5);
    MaxEndAttained(sourceLength, Records(f, 5).value.0);
  }

  /** `IpsPatch::new`: the marker, then one record per iteration until the
      `EOF` offset, raising the target size to each record's end; a literal
      record's bytes are skipped with a seek, which may go past the end. */
  method New(f: seq<byte>, sourceLength: nat) returns (r: Result<IpsPatch, Error>)
    ensures r == Scan(f, sourceLength)
  {
    if |f| < 5 {
      return Err(Eof);
    }
    if f[..5] != Marker {
      return Err(Format(FormatMarker));
    }
    var targetSize := sourceLength;
    var pos := 5;
    while true
      invariant Scan(f, sourceLength) == ScanFrom(f, targetSize, pos)
      decreases |f| + 0x1_0000 - pos
    {
      if pos + 3 > |f| {
        return Err(Eof);
      }
      var offset := U24Be(f, pos);
      if offset == EofMarker {
        pos := pos + 3;
        break;
      }
      if pos + 5 > |f| {
        return Err(Eof);
      }
      var size := U16Be(f, pos + 3);
      if size == 0 {
        if pos + 8 > |f| {
          return Err(Eof);
        }
        var rleSize := U16Be(f, pos + 5);
        targetSize := Max(targetSize, offset + rleSize);
        pos := pos + 8;
      } else {
        targetSize := Max(targetSize, offset + size);
        pos := pos + 5 + size;
      }
    }
    return Ok(IpsPatch(targetSize, TruncatedSize(f, pos)));
  }

  /** `target_size()`: the truncation size when there is one. */
  function TargetSize(p: IpsPatch): (n: nat)
    ensures p.truncatedSize.Some? ==> n == p.truncatedSize.value
    ensures p.truncatedSize.None? ==> n == p.targetSize
  {
    p.truncatedSize.GetOr(p.targetSize)
  }

  /** The loop of `patched_rom` from `pos` on, over the buffer `buf`: an RLE
      record's slice is taken after the record is read, a literal record's
      slice before its bytes are read. */
  function ApplyFrom(f: seq<byte>, pos: nat, buf: seq<byte>): (r: Result<seq<byte>, Error>)
    ensures r.Ok? ==> |r.value| == |buf|
    ensures r.Err? ==> r.error == Eof || r.error == Panic
    decreases |f| - pos
  {
    if pos + 3 > |f| then Err(Eof)
    else
      var offset := U24Be(f, pos);
      if offset == EofMarker then Ok(buf)
      else if pos + 5 > |f| then Err(Eof)
      else
        var size := U16Be(f, pos + 3);
        if size == 0 then
          if pos + 8 > |f| then Err(Eof)
          else
            var count := U16Be(f, pos + 5);
            if offset + count > |buf| then Err(Panic)
            else ApplyFrom(f, pos + 8, Splice(buf, offset, Repeat(f[pos + 7], count)))
        else if offset + size > |buf| then Err(Panic)
        else if pos + 5 + size > |f| then Err(Eof)
        else ApplyFrom(f, pos + 5 + size, Splice(buf, offset, f[pos + 5..pos + 5 + size]))
  }

  /** What `patched_rom` returns for the patch `p` read from the file `f`,
      with the source ROM `source`. */
  function Apply(p: IpsPatch, f: seq<byte>, source: seq<byte>): (r: Result<seq<byte>, Error>)
    ensures |f| < 5 ==> r == Err(Eof)
    ensures |f| >= 5 ==> (r == Err(Format(FormatMarker)) <==> f[..5] != Marker)
    ensures r.Ok? ==> |r.value| == TargetSize(p)
  {
    var buf := Resize(source, p.targetSize);
    if |f| < 5 then Err(Eof)
    else if f[..5] != Marker then Err(Format(FormatMarker))
    else
      match ApplyFrom(f, 5, buf)
      case Err(e) => Err(e)
      case Ok(t) =>
        match p.truncatedSize
        case Some(n) => Ok(Resize(t, n))
        case None => Ok(t)
  }

  /** `buf` with one record written over it. */
  function Overlay(buf: seq<byte>, rec: Record): (r: seq<byte>)
    requires rec.End() <= |buf|
    ensures |r| == |buf|
  {
    Splice(buf, rec.offset, rec.Bytes())
  }

  predicate Fits(recs: seq<Record>, size: nat) {
    forall rec :: rec in recs ==> rec.End() <= size
  }

  /** The reference meaning of a record list: its records written over
      `buf` one after the other, in file order. */
  function ApplyRecords(buf: seq<byte>, recs: seq<Record>): (r: seq<byte>)
    requires Fits(recs, |buf|)
    ensures |r| == |buf|
    decreases |recs|
  {
    if recs == [] then buf
    else
      var last := recs[|recs| - 1];
      assert last in recs;
      Overlay(ApplyRecords(buf, recs[..|recs| - 1]), last)
  }

  /** A byte no record covers keeps its value. */
  lemma {:induction false} ApplyRecordsUntouched(buf: seq<byte>, recs: seq<Record>, i: nat)
    requires Fits(recs, |buf|) && i < |buf|
    requires forall rec :: rec in recs ==> !rec.Covers(i)
    ensures ApplyRecords(buf, recs)[i] == buf[i]
    decreases |recs|
  {
    if recs != [] {
      assert recs[|recs| - 1] in recs;
      ApplyRecordsUntouched(buf, recs[..|recs| - 1], i);
    }
  }

  /** A byte takes its value from the last record that covers it: later
      records overwrite earlier ones. */
  lemma ApplyRecordsLastWins(buf: seq<byte>, recs: seq<Record>, rec: Record, i: nat)
    requires Fits(recs + [rec], |buf|) && rec.Covers(i)
    ensures ApplyRecords(buf, recs + [rec])[i] == rec.Bytes()[i - rec.offset]
  {
    assert (recs + [rec])[..|recs|] == recs;
  }

  /** Writing the first record and then the rest is the whole list. */
  lemma {:induction false} ApplyRecordsFirst(buf: seq<byte>, rec: Record, rest: seq<Record>)
    requires rec.End() <= |buf| && Fits(rest, |buf|)
    ensures Fits([rec] + rest, |buf|)
    ensures ApplyRecords(Overlay(buf, rec), rest) == ApplyRecords(buf, [rec] + rest)
    decreases |rest|
  {
    var all := [rec] + rest;
    if rest != [] {
      assert rest[|rest| - 1] in rest;
      ApplyRecordsFirst(buf, rec, rest[..|rest| - 1]);
      assert all[..|all| - 1] == [rec] + rest[..|rest| - 1];
    }
  }

  /** When every record fits in the buffer, the apply loop writes exactly the
      scanned records in file order. */
  lemma {:induction false} ApplyFromRecords(f: seq<byte>, pos: nat, buf: seq<byte>)
    requires Records(f, pos).Ok? && Fits(Records(f, pos).value.0, |buf|)
    ensures ApplyFrom(f, pos, buf) == Ok(ApplyRecords(buf, Records(f, pos).value.0))
    decreases |f| - pos
  {
    if U24Be(f, pos) != EofMarker {
      var recs := Records(f, pos).value.0;
      var rec, rest := recs[0], recs[1..];
      assert recs == [rec] + rest;
      assert rec in recs;
      var next := if U16Be(f, pos + 3) == 0 then pos + 8 else pos + 5 + U16Be(f, pos + 3);
      assert Records(f, next).Ok? && Records(f, next).value.0 == rest;
      assert forall r :: r in rest ==> r in recs;
      ApplyFromRecords(f, next, Overlay(buf, rec));
      ApplyRecordsFirst(buf, rec, rest);
    }
  }

  /** A patch applied to the source it was scanned against never panics: it
      is the source, padded or cut to the computed size, with every record
      written over it in file order, then cut to the truncation size. */
  lemma ApplyScanned(f: seq<byte>, source: seq<byte>)
    requires Scan(f, |source|).Ok?
    ensures Records(f, 5).Ok?
    ensures var p := Scan(f, |source|).value;
      var recs := Records(f, 5).value.0;
      && Fits(recs, p.targetSize)
      && Apply(p, f, source) == Ok(Resize(ApplyRecords(Resize(source, p.targetSize), recs), TargetSize(p)))
  {
    var p := Scan(f, |source|).value;
    ScanSize(f, |source|);
    var recs := Records(f, 5).value.0;
    var buf := Resize(source, p.targetSize);
    ApplyFromRecords(f, 5, buf);
    var t := ApplyRecords(buf, recs);
    assert Resize(t, |t|) == t;
  }

  /** `slice.fill(value)` over `target[at..at + count]`. */
  method Fill(target: array<byte>, at: nat, count: nat, value: byte)
    requires at + count <= target.Length
    modifies target
    ensures target[..] == Splice(old(target[..]), at, Repeat(value, count))
  {
    for k := 0 to count
      invariant forall i :: 0 <= i < target.Length ==>
        target[i] == if at <= i < at + k then value else old(target[i])
    {
      target[at + k] := value;
    }
  }

  /** One pass of the `patched_rom` loop body: apply the record at `pos`
      to `target` in place. `Ok(None)` is the end-of-file marker and
      `Ok(Some(next))` the position of the following record. */
  method ApplyRecordAt(f: seq<byte>, pos: nat, target: array<byte>) returns (r: Result<Option<nat>, Error>)
    modifies target
    ensures r.Err? ==> ApplyFrom(f, pos, old(target[..])) == Err(r.error)
    ensures r == Ok(None) ==> ApplyFrom(f, pos, old(target[..])) == Ok(old(target[..])) && target[..] == old(target[..])
    ensures r.Ok? && r.value.Some? ==>
      pos < r.value.value <= |f| && ApplyFrom(f, pos, old(target[..])) == ApplyFrom(f, r.value.value, target[..])
  {
    if pos + 3 > |f| {
      return Err(Eof);
    }
    var offset := U24Be(f, pos);
    if offset == EofMarker {
      return Ok(None);
    }
    if pos + 5 > |f| {
      return Err(Eof);
    }
    var size := U16Be(f, pos + 3);
    if size == 0 {
      if pos + 8 > |f| {
        return Err(Eof);
      }
      var rleSize := U16Be(f, pos + 5);
      var rleValue := f[pos + 7];
      if offset + rleSize > target.Length {
        return Err(Panic);
      }
      Fill(target, offset, rleSize, rleValue);
      return Ok(Some(pos + 8));
    }
    if offset + size > target.Length {
      return Err(Panic);
    }
    if pos + 5 + size > |f| {
      return Err(Eof);
    }
    CopyIn(target, offset, f, pos + 5, size);
    return Ok(Some(pos + 5 + size));
  }

  /** `patched_rom`: the source resized to the computed size, the records
      written over it in file order, then the truncation. */
  method PatchedRom(p: IpsPatch, f: seq<byte>, source: seq<byte>) returns (r: Result<seq<byte>, Error>)
    ensures r == Apply(p, f, source)
  {
    var target := new byte[p.targetSize](i requires 0 <= i => if i < |source| then source[i] else 0);
    assert target[..] == Resize(source, p.targetSize);
    if |f| < 5 {
      return Err(Eof);
    }
    if f[..5] != Marker {
      return Err(Format(FormatMarker));
    }
    var pos := 5;
    while true
      invariant ApplyFrom(f, 5, Resize(source, p.targetSize)) == ApplyFrom(f, pos, target[..])
      decreases |f| + 1 - pos
    {
      var step := ApplyRecordAt(f, pos, target);
      if step.Err? {
        return Err(step.error);
      }
      if step.value.None? {
        break;
      }
      pos := step.value.value;
    }
    var result := target[..];
    if p.truncatedSize.Some? {
      result := Resize(result, p.truncatedSize.value);
    }
    return Ok(result);
  }
}
