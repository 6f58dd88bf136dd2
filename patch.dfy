/** The `Patch` interface of `src/patch/mod.rs`: the ROM manager stores
    either kind of patch behind it, and the file system asks it for the size
    of the patched ROM and for the patched ROM itself. A stored patch carries
    the bytes of its patch file and of its source ROM as they were when the
    directory was scanned. */
module Patches {
  import opened Io
  import Bps
  import Ips

  /** The boxed error `patched_rom` and the constructors return. */
  datatype PatchError = BpsFailed(bps: Bps.Error) | IpsFailed(ips: Ips.Error)

  datatype Patch =
    | BpsRom(header: Bps.BpsPatch, patchFile: seq<byte>, source: seq<byte>)
    | IpsRom(ips: Ips.IpsPatch, patchFile: seq<byte>, source: seq<byte>)

  /** `target_size()` of either implementation. */
  function TargetSize(p: Patch): (n: nat)
    ensures p.BpsRom? ==> n == p.header.targetSize
    ensures p.IpsRom? ==> n == Ips.TargetSize(p.ips)
  {
    match p
    case BpsRom(h, _, _) => h.targetSize
    case IpsRom(q, _, _) => Ips.TargetSize(q)
  }

  /** What `patched_rom()` returns; `crc` is CRC-32, which only BPS uses. */
  function Patched(p: Patch, crc: Checksum): (r: Result<seq<byte>, PatchError>)
    ensures r.Ok? ==> |r.value| == TargetSize(p)
  {
    match p
    case BpsRom(h, f, source) =>
      (match Bps.Apply(h, f, source, crc)
       case Ok(t) => Ok(t)
       case Err(e) => Err(BpsFailed(e)))
    case IpsRom(q, f, source) =>
      (match Ips.Apply(q, f, source)
       case Ok(t) => Ok(t)
       case Err(e) => Err(IpsFailed(e)))
  }

  /** Dynamic dispatch of `patched_rom()` to the implementation. */
  method PatchedRom(p: Patch, crc: Checksum) returns (r: Result<seq<byte>, PatchError>)
    ensures r == Patched(p, crc)
  {
    match p
    case BpsRom(h, f, source) =>
      var t := Bps.PatchedRom(h, f, source, crc);
      r := if t.Ok? then Ok(t.value) else Err(BpsFailed(t.error));
    case IpsRom(q, f, source) =>
      var t := Ips.PatchedRom(q, f, source);
      r := if t.Ok? then Ok(t.value) else Err(IpsFailed(t.error));
  }
}
