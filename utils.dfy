/** The second copy of the BPS number reader (`utils.rs`) and its signed
    variant, whose sign travels in the lowest bit of the unsigned number. */
module Utils {
  import opened Io
  import ReadExt

  /** `read_vlq` as written a second time in `utils.rs`: the same loop, so the
      same function of the input as `ReadExt.ReadVlq`. */
  method ReadVlq(s: seq<byte>, pos: nat) returns (r: Option<(nat, nat)>)
    ensures r == ReadExt.DecodeAt(s, pos)
  {
    var data: nat, shift: nat, p: nat := 0, 1, pos;
    while true
      invariant pos <= p
      invariant ReadExt.DecodeAt(s, pos) == ReadExt.Rebase(data, shift, ReadExt.DecodeAt(s, p))
      decreases |s| - p
    {
      if p >= |s| {
        return None;
      }
      var x := s[p];
      if ReadExt.IsLast(x) {
        data := data + shift * ReadExt.Low7(x);
        return Some((data, p + 1));
      }
      ReadExt.RebaseStep(s, p, data, shift);
      p := p + 1;
      data := data + shift * ReadExt.Low7(x);
      shift := shift * 0x80;
      data := data + shift;
    }
  }

  /** The signed number carried by the unsigned number `u`: magnitude
      `u >> 1`, negated when the low bit of `u` is set. */
  function SignedValue(u: nat): (v: int)
    ensures (if v < 0 then -v else v) == u / 2
    ensures v < 0 <==> u % 2 == 1 && u >= 2
  {
    var magnitude := u / 2;
    if u % 2 != 0 then -magnitude else magnitude
  }

  /** The encoding the writers of BPS patches use for a signed number, the
      partner of `SignedValue`: magnitude shifted left, sign in bit 0. */
  function SignedEncode(v: int): (u: nat) {
    if v < 0 then 2 * -v + 1 else 2 * v
  }

  /** Every signed number comes back from its encoding. */
  lemma SignedRoundTrip(v: int)
    ensures SignedValue(SignedEncode(v)) == v
  {
  }

  /** Every unsigned number except 1 is the encoding of its signed value; 0 and
      1 both stand for zero ("negative zero"). */
  lemma SignedCanonical(u: nat)
    ensures u != 1 ==> SignedEncode(SignedValue(u)) == u
    ensures SignedValue(0) == 0 && SignedValue(1) == 0
  {
  }

  /** `read_signed_vlq`: an unsigned read whose failure passes through as is. */
  method ReadSignedVlq(s: seq<byte>, pos: nat) returns (r: Option<(int, nat)>)
    ensures ReadExt.DecodeAt(s, pos).None? ==> r.None?
    ensures ReadExt.DecodeAt(s, pos).Some? ==>
      var (u, next) := ReadExt.DecodeAt(s, pos).value;
      r == Some((SignedValue(u), next))
  {
    var data := ReadVlq(s, pos);
    if data.None? {
      return None;
    }
    var (u, next) := data.value;
    var magnitude: int := u / 2;
    if u % 2 != 0 {
      r := Some((-magnitude, next));
    } else {
      r := Some((magnitude, next));
    }
  }
}
