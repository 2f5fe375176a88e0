/**
  The invertible 64-bit word operations that src/shim/prng.c is built from.
  Each comes with its inverse and a lemma that the two undo each other.
 */
module Words {

  /** `z ^ (z >> k)` and `z ^ (z << k)` for the shift amounts in use. */
  function Shr12(z: bv64): bv64 { z ^ (z >> 12) }
  function Shr27(z: bv64): bv64 { z ^ (z >> 27) }
  function Shr30(z: bv64): bv64 { z ^ (z >> 30) }
  function Shr31(z: bv64): bv64 { z ^ (z >> 31) }
  function Shl25(z: bv64): bv64 { z ^ (z << 25) }

  /** Wrapping products with the odd constants in use. */
  function MulA(z: bv64): bv64 { z * 0xBF58476D1CE4E5B9 }
  function MulB(z: bv64): bv64 { z * 0x94D049BB133111EB }
  function MulOut(z: bv64): bv64 { z * 0x2545F4914F6CDD1D }

  function UnShr12(w: bv64): bv64 { var a := w ^ (w >> 12); var b := a ^ (a >> 24); b ^ (b >> 48) }
  function UnShr27(w: bv64): bv64 { var a := w ^ (w >> 27); a ^ (a >> 54) }
  function UnShr30(w: bv64): bv64 { var a := w ^ (w >> 30); a ^ (a >> 60) }
  function UnShr31(w: bv64): bv64 { var a := w ^ (w >> 31); a ^ (a >> 62) }
  function UnShl25(w: bv64): bv64 { var a := w ^ (w << 25); a ^ (a << 50) }

  /** The multiplicative inverses modulo 2^64. */
  function UnMulA(w: bv64): bv64 { w * 0x96DE1B173F119089 }
  function UnMulB(w: bv64): bv64 { w * 0x319642B2D24D8EC3 }
  function UnMulOut(w: bv64): bv64 { w * 0x59071D96D81ECD35 }

  lemma Shr12Inverse(x: bv64)
    ensures UnShr12(Shr12(x)) == x && Shr12(UnShr12(x)) == x
  {
    assert UnShr12(x ^ (x >> 12)) == x;
    assert Shr12(var a := x ^ (x >> 12); var b := a ^ (a >> 24); b ^ (b >> 48)) == x;
  }

  lemma Shr27Inverse(x: bv64)
    ensures UnShr27(Shr27(x)) == x && Shr27(UnShr27(x)) == x
  {
    assert UnShr27(x ^ (x >> 27)) == x;
    assert Shr27(var a := x ^ (x >> 27); a ^ (a >> 54)) == x;
  }

  lemma Shr30Inverse(x: bv64)
    ensures UnShr30(Shr30(x)) == x && Shr30(UnShr30(x)) == x
  {
    assert UnShr30(x ^ (x >> 30)) == x;
    assert Shr30(var a := x ^ (x >> 30); a ^ (a >> 60)) == x;
  }

  lemma Shr31Inverse(x: bv64)
    ensures UnShr31(Shr31(x)) == x && Shr31(UnShr31(x)) == x
  {
    assert UnShr31(x ^ (x >> 31)) == x;
    assert Shr31(var a := x ^ (x >> 31); a ^ (a >> 62)) == x;
  }

  lemma Shl25Inverse(x: bv64)
    ensures UnShl25(Shl25(x)) == x && Shl25(UnShl25(x)) == x
  {
    assert UnShl25(x ^ (x << 25)) == x;
    assert Shl25(var a := x ^ (x << 25); a ^ (a << 50)) == x;
  }

  lemma MulAInverse(x: bv64)
    ensures UnMulA(MulA(x)) == x && MulA(UnMulA(x)) == x
  {
    assert UnMulA(x * 0xBF58476D1CE4E5B9) == x;
    assert MulA(x * 0x96DE1B173F119089) == x;
  }

  lemma MulBInverse(x: bv64)
    ensures UnMulB(MulB(x)) == x && MulB(UnMulB(x)) == x
  {
    assert UnMulB(x * 0x94D049BB133111EB) == x;
    assert MulB(x * 0x319642B2D24D8EC3) == x;
  }

  lemma MulOutInverse(x: bv64)
    ensures UnMulOut(MulOut(x)) == x && MulOut(UnMulOut(x)) == x
  {
    assert UnMulOut(x * 0x2545F4914F6CDD1D) == x;
    assert MulOut(x * 0x59071D96D81ECD35) == x;
  }

  /** `splitmix64` after its increment, and the way back. */
  function Finalize(z: bv64): bv64 { Shr31(MulB(Shr27(MulA(Shr30(z))))) }
  function Unfinalize(w: bv64): bv64 { UnShr30(UnMulA(UnShr27(UnMulB(UnShr31(w))))) }

  lemma FinalizeInverse(x: bv64)
    ensures Unfinalize(Finalize(x)) == x && Finalize(Unfinalize(x)) == x
  {
    hide Shr30, MulA, Shr27, MulB, Shr31, UnShr30, UnMulA, UnShr27, UnMulB, UnShr31;
    var a := Shr30(x); var b := MulA(a); var c := Shr27(b); var d := MulB(c);
    Shr30Inverse(x); MulAInverse(a); Shr27Inverse(b); MulBInverse(c); Shr31Inverse(d);
    var e := UnShr31(x); var f := UnMulB(e); var g := UnShr27(f); var h := UnMulA(g);
    Shr31Inverse(x); MulBInverse(e); Shr27Inverse(f); MulAInverse(g); Shr30Inverse(h);
  }

  /** One xorshift step on the generator state, and the way back. */
  function Step(s: bv64): bv64 { Shr27(Shl25(Shr12(s))) }
  function Unstep(s: bv64): bv64 { UnShr12(UnShl25(UnShr27(s))) }

  lemma StepInverse(x: bv64)
    ensures Unstep(Step(x)) == x && Step(Unstep(x)) == x
  {
    hide Shr12, Shl25, Shr27, UnShr12, UnShl25, UnShr27;
    var a := Shr12(x); var b := Shl25(a);
    Shr12Inverse(x); Shl25Inverse(a); Shr27Inverse(b);
    var c := UnShr27(x); var d := UnShl25(c);
    Shr27Inverse(x); Shl25Inverse(c); Shr12Inverse(d);
  }
}
