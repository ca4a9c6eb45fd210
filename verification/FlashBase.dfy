/** What both flash drivers share: the byte memory and the operations a flash controller is asked for. */
module FlashBase {
  import opened Words

  /** An operation started by software, with the address handed to the controller. */
  datatype Op = Erase(addr: nat) | Program(addr: nat)

  function Blank(n: nat): (b: seq<byte>)
    ensures |b| == n && forall i :: 0 <= i < n ==> b[i] == ERASED
  {
    seq(n, _ => ERASED)
  }

  /** `mem` with the `n` bytes from `at` on replaced by the first `n` of `data`. */
  function Patch(mem: seq<byte>, at: nat, data: seq<byte>, n: nat): (m: seq<byte>)
    requires n <= |data| && at + n <= |mem|
    ensures |m| == |mem|
    ensures forall i :: 0 <= i < |mem| ==> m[i] == if at <= i < at + n then data[i - at] else mem[i]
  {
    seq(|mem|, i requires 0 <= i < |mem| => if at <= i < at + n then data[i - at] else mem[i])
  }

  /** `mem` with the bytes from `at` on replaced by `data`. */
  function Overlay(mem: seq<byte>, at: nat, data: seq<byte>): (m: seq<byte>)
    requires at + |data| <= |mem|
    ensures |m| == |mem|
  {
    Patch(mem, at, data, |data|)
  }

  /** Storing the next two bytes of `data`. */
  lemma PatchHalfWord(mem: seq<byte>, at: nat, data: seq<byte>, k: nat)
    requires 2 * k + 2 <= |data| && at + 2 * k + 2 <= |mem|
    ensures Overlay(Patch(mem, at, data, 2 * k), at + 2 * k, [data[2 * k], data[2 * k + 1]])
         == Patch(mem, at, data, 2 * k + 2)
  {
    var pair := [data[2 * k], data[2 * k + 1]];
    var x, y := Overlay(Patch(mem, at, data, 2 * k), at + 2 * k, pair), Patch(mem, at, data, 2 * k + 2);
    forall i | 0 <= i < |mem|
      ensures x[i] == y[i]
    {
      if i == at + 2 * k {
        assert x[i] == pair[0];
      } else if i == at + 2 * k + 1 {
        assert x[i] == pair[1];
      }
    }
  }

  lemma OverlayTwice(mem: seq<byte>, at: nat, a: seq<byte>, b: seq<byte>)
    requires at + |a| <= |mem| && |a| == |b|
    ensures Overlay(Overlay(mem, at, a), at, b) == Overlay(mem, at, b)
  {
  }
}
