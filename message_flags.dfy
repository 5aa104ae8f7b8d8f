/** Bitwise AND on field elements and the message-flag validator built on it. */
module MessageFlags {

  /** 2 to the power `i`. */
  function Pow2(i: nat): (p: nat)
    ensures p >= 1
  {
    if i == 0 then 1 else 2 * Pow2(i - 1)
  }

  /** Bit `i` of `m` (bit 0 is the least significant). */
  predicate Bit(m: nat, i: nat)
  {
    if i == 0 then m % 2 == 1 else Bit(m / 2, i - 1)
  }

  /** `Gadgets.and`: the bitwise AND of two field elements read as binary
      numbers. It keeps a bit only where both arguments have it, so it is no
      larger than either. */
  function BitAnd(a: nat, b: nat): (r: nat)
    ensures r <= a && r <= b
  {
    if a == 0 || b == 0 then 0
    else 2 * BitAnd(a / 2, b / 2) + (if a % 2 == 1 && b % 2 == 1 then 1 else 0)
  }

  /** No bit of 0 is set. */
  lemma {:induction false} BitOfZero(i: nat)
    ensures !Bit(0, i)
  {
    if i > 0 {
      BitOfZero(i - 1);
    }
  }

  /** `BitAnd` is the bitwise AND: bit `i` of the result is set exactly when
      bit `i` is set in both arguments. */
  lemma {:induction false} BitAndBits(a: nat, b: nat, i: nat)
    ensures Bit(BitAnd(a, b), i) == (Bit(a, i) && Bit(b, i))
  {
    if a == 0 || b == 0 {
      BitOfZero(i);
    } else if i > 0 {
      assert BitAnd(a, b) / 2 == BitAnd(a / 2, b / 2);
      BitAndBits(a / 2, b / 2, i - 1);
    }
  }

  /** ANDing with a single-bit mask keeps that bit of `m` and nothing else. */
  lemma {:induction false} BitAndPow2(m: nat, i: nat)
    ensures BitAnd(m, Pow2(i)) == if Bit(m, i) then Pow2(i) else 0
  {
    if i > 0 {
      BitAndPow2(m / 2, i - 1);
    }
  }

  /** The extract-then-compare step: `and(message, mask) == mask`. */
  predicate Flag(message: nat, mask: nat)
  {
    BitAnd(message, mask) == mask
  }

  /** For the single-bit masks used here, a flag is set exactly when that
      bit of the message is. */
  lemma {:induction false} FlagIsBit(message: nat, i: nat)
    ensures Flag(message, Pow2(i)) <==> Bit(message, i)
  {
    BitAndPow2(message, i);
  }

  /** `validateMessage`: six flags read through the masks 1, 2, 4, 8, 16 and
      32, combined by three conditions written as `!a || (a && b)`. */
  predicate ValidateMessage(message: nat)
  {
    var flag1 := Flag(message, 1);
    var flag2 := Flag(message, 2);
    var flag3 := Flag(message, 4);
    var flag4 := Flag(message, 8);
    var flag5 := Flag(message, 16);
    var flag6 := Flag(message, 32);
    var condition1 := !flag1 || (flag1 && !(flag2 || flag3 || flag4 || flag5 || flag6));
    var condition2 := !flag2 || (flag2 && flag3);
    var condition3 := !flag4 || (flag4 && !(flag5 || flag6));
    condition1 && condition2 && condition3
  }

  /** The three rules on the six low bits, stated as implications:
      flag 1 excludes every other flag, flag 2 needs flag 3, and flag 4
      excludes flags 5 and 6. Flag k is bit k-1. */
  predicate FlagRules(m: nat)
  {
    && (Bit(m, 0) ==> !Bit(m, 1) && !Bit(m, 2) && !Bit(m, 3) && !Bit(m, 4) && !Bit(m, 5))
    && (Bit(m, 1) ==> Bit(m, 2))
    && (Bit(m, 3) ==> !Bit(m, 4) && !Bit(m, 5))
  }

  /** The validator accepts a message exactly when its low bits obey the
      three rules. */
  lemma ValidateMessageIsFlagRules(message: nat)
    ensures ValidateMessage(message) <==> FlagRules(message)
  {
    assert Pow2(0) == 1 && Pow2(1) == 2 && Pow2(2) == 4;
    assert Pow2(3) == 8 && Pow2(4) == 16 && Pow2(5) == 32;
    FlagIsBit(message, 0);
    FlagIsBit(message, 1);
    FlagIsBit(message, 2);
    FlagIsBit(message, 3);
    FlagIsBit(message, 4);
    FlagIsBit(message, 5);
  }

  /** Bits below `n` are the same in `m` and in `m` reduced modulo 2^n. */
  lemma {:induction false} BitOfLowPart(m: nat, i: nat, n: nat)
    requires i < n
    ensures Bit(m % Pow2(n), i) == Bit(m, i)
  {
    LowPartHalves(m, Pow2(n - 1));
    if i > 0 {
      BitOfLowPart(m / 2, i - 1, n - 1);
    }
  }

  /** Reducing modulo 2p keeps the last bit and reduces the rest modulo p. */
  lemma LowPartHalves(m: nat, p: nat)
    requires p >= 1
    ensures m % (2 * p) % 2 == m % 2
    ensures m % (2 * p) / 2 == (m / 2) % p
  {
    var q := (m / 2) / p;
    var r := 2 * ((m / 2) % p) + m % 2;
    assert m / 2 == q * p + (m / 2) % p;
    assert m == q * (2 * p) + r;
    DivModUnique(m, 2 * p, q, r);
  }

  /** Euclidean division has one quotient and one remainder. */
  lemma DivModUnique(m: nat, d: nat, q: nat, r: nat)
    requires d > 0 && m == q * d + r && r < d
    ensures m % d == r && m / d == q
  {
    var q', r' := m / d, m % d;
    assert (q' - q) * d == r - r';
    MultipleOfDivisor(q' - q, d);
  }

  /** A nonzero multiple of `d` is at least `d` away from 0. */
  lemma MultipleOfDivisor(k: int, d: int)
    requires d > 0
    ensures k >= 1 ==> k * d >= d
    ensures k <= -1 ==> k * d <= -d
  {
  }

  /** Only the six low bits matter: the validator gives the same verdict on
      a message and on the message modulo 64. */
  lemma ValidateMessageLowBits(message: nat)
    ensures ValidateMessage(message) == ValidateMessage(message % 64)
  {
    var low := message % 64;
    assert Pow2(6) == 64;
    BitOfLowPart(message, 0, 6);
    BitOfLowPart(message, 1, 6);
    BitOfLowPart(message, 2, 6);
    BitOfLowPart(message, 3, 6);
    BitOfLowPart(message, 4, 6);
    BitOfLowPart(message, 5, 6);
    ValidateMessageIsFlagRules(message);
    ValidateMessageIsFlagRules(low);
  }

  /** Accepted test messages in which flag 1, 2 or 4 is set and its rule
      is met. */
  lemma AcceptedFixturesWithActiveRule()
    ensures ValidateMessage(449) && ValidateMessage(1478) && ValidateMessage(840)
  {
    assert ValidateMessage(449) by { ValidateMessageIsFlagRules(449); }
    assert ValidateMessage(1478) by { ValidateMessageIsFlagRules(1478); }
    assert ValidateMessage(840) by { ValidateMessageIsFlagRules(840); }
  }

  /** Accepted test messages in which flags 1, 2 and 4 are clear, so no
      rule applies. */
  lemma AcceptedFixturesWithNoActiveRule()
    ensures ValidateMessage(36) && ValidateMessage(1776) && ValidateMessage(0)
    ensures ValidateMessage(1780) && ValidateMessage(740)
  {
    assert ValidateMessage(36) by { ValidateMessageIsFlagRules(36); }
    assert ValidateMessage(1776) by { ValidateMessageIsFlagRules(1776); }
    assert ValidateMessage(0) by { ValidateMessageIsFlagRules(0); }
    assert ValidateMessage(1780) by { ValidateMessageIsFlagRules(1780); }
    assert ValidateMessage(740) by { ValidateMessageIsFlagRules(740); }
  }

  /** The messages the contract's tests expect to be rejected. */
  lemma RejectedFixtures()
    ensures !ValidateMessage(1539) && !ValidateMessage(1475) && !ValidateMessage(197)
    ensures !ValidateMessage(184) && !ValidateMessage(138) && !ValidateMessage(168)
  {
    assert !ValidateMessage(1539) by { ValidateMessageIsFlagRules(1539); }
    assert !ValidateMessage(1475) by { ValidateMessageIsFlagRules(1475); }
    assert !ValidateMessage(197) by { ValidateMessageIsFlagRules(197); }
    assert !ValidateMessage(184) by { ValidateMessageIsFlagRules(184); }
    assert !ValidateMessage(138) by { ValidateMessageIsFlagRules(138); }
    assert !ValidateMessage(168) by { ValidateMessageIsFlagRules(168); }
  }
}
