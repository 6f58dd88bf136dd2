/** The unsigned variable-length integer of the BPS patch format
    (`ReadExt::read_vlq`). Seven payload bits per byte, least significant
    group first; a byte with bit 7 set ends the number; every byte before the
    last adds one more power of 128, so that each value has exactly one
    encoding. A stream is an in-memory byte sequence and a cursor. */
module ReadExt {
  import opened Io

  /** `x & 0x80 != 0`: this byte ends the number. */
  predicate IsLast(b: byte) { b >= 0x80 }

  /** `x & 0x7F`: the payload bits of a byte. */
  function Low7(b: byte): nat { b % 0x80 }

  /** The value of the number that starts at `pos` and the position just past
      it, or `None` when the input ends before a byte with bit 7 set. */
  function DecodeAt(s: seq<byte>, pos: nat): (r: Option<(nat, nat)>)
    ensures r.Some? ==> pos < r.value.1 <= |s|
    decreases |s| - pos
  {
    if pos >= |s| then None
    else if IsLast(s[pos]) then Some((Low7(s[pos]), pos + 1))
    else
      match DecodeAt(s, pos + 1)
      case None => None
      case Some((rest, next)) => Some((Low7(s[pos]) + 0x80 * (rest + 1), next))
  }

  /** A decode that started with `data` already accumulated and each further
      group scaled by `shift`. */
  function Rebase(data: nat, shift: nat, r: Option<(nat, nat)>): Option<(nat, nat)> {
    match r
    case None => None
    case Some((v, next)) => Some((data + shift * v, next))
  }

  /** `read_vlq`: the loop of the source, one byte per iteration, with the
      running value `data` and the scale `shift` of the next group. */
  method ReadVlq(s: seq<byte>, pos: nat) returns (r: Option<(nat, nat)>)
    ensures r == DecodeAt(s, pos)
  {
    var data: nat, shift: nat, p: nat := 0, 1, pos;
    while true
      invariant pos <= p
      invariant DecodeAt(s, pos) == Rebase(data, shift, DecodeAt(s, p))
      decreases |s| - p
    {
      if p >= |s| {
        return None;
      }
      var x := s[p];
      if IsLast(x) {
        data := data + shift * Low7(x);
        return Some((data, p + 1));
      }
      RebaseStep(s, p, data, shift);
      p := p + 1;
      data := data + shift * Low7(x);
      shift := shift * 0x80;
      data := data + shift;
    }
  }

  /** One non-final byte moves its payload and the continuation step into the
      accumulator and multiplies the scale by 128. */
  lemma RebaseStep(s: seq<byte>, p: nat, data: nat, shift: nat)
    requires p < |s| && !IsLast(s[p])
    ensures Rebase(data, shift, DecodeAt(s, p))
         == Rebase(data + shift * Low7(s[p]) + shift * 0x80, shift * 0x80, DecodeAt(s, p + 1))
  {
    match DecodeAt(s, p + 1)
    case None =>
    case Some((v, next)) =>
      var low := Low7(s[p]);
      calc {
        shift * (low + 0x80 * (v + 1));
        shift * low + shift * (0x80 * v) + shift * 0x80;
        { assert shift * (0x80 * v) == (shift * 0x80) * v; }
        shift * low + shift * 0x80 + (shift * 0x80) * v;
      }
  }

  /** The encoder of the BPS format, the partner of `DecodeAt`: emit the low
      seven bits; if nothing is left, set bit 7 and stop; otherwise shift
      right by seven, subtract one and go on. */
  function Encode(n: nat): (e: seq<byte>)
    ensures |e| >= 1
    ensures IsLast(e[|e| - 1]) && forall i :: 0 <= i < |e| - 1 ==> !IsLast(e[i])
  {
    if n < 0x80 then [n + 0x80] else [n % 0x80] + Encode(n / 0x80 - 1)
  }

  /** The smallest value whose encoding takes `k` bytes: 0 for one byte, and
      each extra byte starts one past the largest value of the shorter ones. */
  function Lowest(k: nat): nat
    requires k >= 1
  {
    if k == 1 then 0 else 0x80 * (Lowest(k - 1) + 1)
  }

  /** Decoding reads exactly the bytes up to and including the first one with
      bit 7 set. */
  lemma {:induction false} DecodeStopsAtFirstLast(s: seq<byte>, pos: nat)
    ensures DecodeAt(s, pos).Some? <==> exists i :: pos <= i < |s| && IsLast(s[i])
    ensures DecodeAt(s, pos).Some? ==>
      var next := DecodeAt(s, pos).value.1;
      IsLast(s[next - 1]) && forall i :: pos <= i < next - 1 ==> !IsLast(s[i])
    decreases |s| - pos
  {
    if pos < |s| && !IsLast(s[pos]) {
      DecodeStopsAtFirstLast(s, pos + 1);
      if exists i :: pos <= i < |s| && IsLast(s[i]) {
        var i :| pos <= i < |s| && IsLast(s[i]);
        assert pos + 1 <= i;
      }
    }
  }

  /** A single byte with bit 7 set is a whole number: its low seven bits. */
  lemma SingleByte(s: seq<byte>, pos: nat)
    requires pos < |s| && IsLast(s[pos])
    ensures DecodeAt(s, pos) == Some((s[pos] - 0x80, pos + 1))
    ensures s[pos] - 0x80 < 0x80
  {
  }

  /** Round trip: the encoding of `n`, wherever it stands, decodes to `n`
      and is consumed exactly. */
  lemma {:induction false} DecodeEncode(n: nat, s: seq<byte>, pos: nat)
    requires pos + |Encode(n)| <= |s| && s[pos..pos + |Encode(n)|] == Encode(n)
    ensures DecodeAt(s, pos) == Some((n, pos + |Encode(n)|))
    decreases n
  {
    var e := Encode(n);
    assert s[pos] == e[0];
    if n >= 0x80 {
      var m := n / 0x80 - 1;
      assert e == [n % 0x80] + Encode(m);
      assert s[pos + 1..pos + 1 + |Encode(m)|] == Encode(m) by {
        assert s[pos + 1..pos + 1 + |Encode(m)|] == s[pos..pos + |e|][1..];
      }
      DecodeEncode(m, s, pos + 1);
    }
  }

  /** The bytes a decode consumes are exactly the encoding of its value: no
      value has a second encoding. */
  lemma {:induction false} EncodeDecode(s: seq<byte>, pos: nat)
    requires DecodeAt(s, pos).Some?
    ensures var (v, next) := DecodeAt(s, pos).value; s[pos..next] == Encode(v)
    decreases |s| - pos
  {
    if !IsLast(s[pos]) {
      EncodeDecode(s, pos + 1);
      var (rest, next) := DecodeAt(s, pos + 1).value;
      var v := Low7(s[pos]) + 0x80 * (rest + 1);
      assert v % 0x80 == s[pos] && v / 0x80 - 1 == rest;
      assert s[pos..next] == [s[pos]] + s[pos + 1..next];
    }
  }

  /** Canonical encoding: two values with the same encoding are equal. */
  lemma EncodeInjective(a: nat, b: nat)
    requires Encode(a) == Encode(b)
    ensures a == b
  {
    DecodeEncode(a, Encode(a), 0);
    DecodeEncode(b, Encode(b), 0);
  }

  /** The `k`-byte encodings cover exactly the values from `Lowest(k)` up to
      one below `Lowest(k + 1)`. */
  lemma {:induction false} EncodedLength(n: nat, k: nat)
    requires k >= 1
    ensures |Encode(n)| == k <==> Lowest(k) <= n < Lowest(k + 1)
    decreases k
  {
    if n >= 0x80 && k > 1 {
      EncodedLength(n / 0x80 - 1, k - 1);
    } else if n >= 0x80 {
      assert Lowest(2) == 0x80;
    } else if k > 1 {
      LowestGrows(k);
    }
  }

  lemma {:induction false} LowestGrows(k: nat)
    requires k >= 2
    ensures Lowest(k) >= 0x80
  {
    if k > 2 {
      LowestGrows(k - 1);
    }
  }
}
