/** The image readers' guards against sizes that do not fit in an `int`. */
module SizeChecks {
  import opened Bits

  const INT_MAX: nat := 0x7FFF_FFFF

  /** `stbi__mul2sizes_valid` */
  predicate Mul2Valid(a: nat, b: nat) { b == 0 || a <= INT_MAX / b }

  /** `stbi__mad2sizes_valid` */
  predicate Mad2Valid(a: nat, b: nat, add: nat) { Mul2Valid(a, b) && a * b <= INT_MAX - add }

  /** `stbi__mad3sizes_valid` */
  predicate Mad3Valid(a: nat, b: nat, c: nat, add: nat) {
    Mul2Valid(a, b) && Mul2Valid(a * b, c) && a * b * c <= INT_MAX - add
  }

  /** The division decides whether the product fits. */
  lemma Mul2Meaning(a: nat, b: nat)
    ensures Mul2Valid(a, b) <==> a * b <= INT_MAX
  {
    if b > 0 {
      DivModDef(INT_MAX, b);
      if a <= INT_MAX / b {
        MulMono(a, INT_MAX / b, b);
      } else {
        MulMono(INT_MAX / b + 1, a, b);
        MulDistrib(INT_MAX / b, 1, b);
      }
    }
  }

  lemma Mad2Meaning(a: nat, b: nat, add: nat)
    ensures Mad2Valid(a, b, add) <==> a * b + add <= INT_MAX
  {
    Mul2Meaning(a, b);
  }

  lemma Mad3Meaning(a: nat, b: nat, c: nat, add: nat)
    requires c > 0
    ensures Mad3Valid(a, b, c, add) <==> a * b * c + add <= INT_MAX
  {
    Mul2Meaning(a, b);
    Mul2Meaning(a * b, c);
    MulMono(1, c, a * b);
    Commuted(a * b, c);
  }

  lemma Commuted(a: nat, b: nat)
    ensures a * b == b * a
  {
  }
}
