/**
 * The enumeration codec: a set of enum constants packed into one `long`,
 * one bit per constant, and unpacked again.
 *
 * An enum type is described by the number of its constants, `constants`
 * (at most 64); its constants are the ordinals `0 .. constants - 1`, and an
 * enum set is a set of such ordinals. A code is the 64 bits of the `long`,
 * read as an unsigned number below 2^64; Java's `|` and `&` on `long` are
 * `BitOr` and `BitAnd` on that number, and `1L << i` is `Pow2(i)`.
 */
module EnumerationCodec {

  /** The number of bits in a `long`. */
  const Width: nat := 64

  function Pow2(i: nat): (p: nat)
    ensures p >= 1
  {
    if i == 0 then 1 else 2 * Pow2(i - 1)
  }

  /** The 64 bits of a `long`. */
  type Code = c: nat | c < Pow2(Width)

  /** Bit `i` of `c`: its `i`-th binary digit. */
  predicate HasBit(c: nat, i: nat)
  {
    if i == 0 then c % 2 == 1 else HasBit(c / 2, i - 1)
  }

  /** Java's `|`, digit by digit. */
  function BitOr(a: nat, b: nat): nat
    decreases a + b
  {
    if a == 0 && b == 0 then 0
    else 2 * BitOr(a / 2, b / 2) + (if a % 2 == 1 || b % 2 == 1 then 1 else 0)
  }

  /** Java's `&`, digit by digit. */
  function BitAnd(a: nat, b: nat): nat
    decreases a + b
  {
    if a == 0 || b == 0 then 0
    else 2 * BitAnd(a / 2, b / 2) + (if a % 2 == 1 && b % 2 == 1 then 1 else 0)
  }

  /** The mask `1L << i`, for an ordinal below 64: only bit `i` is set. */
  function Bit(i: nat): (m: Code)
    requires i < Width
    ensures forall j: nat :: HasBit(m, j) <==> j == i
  {
    Pow2Monotonic(i, Width);
    forall j: nat ensures HasBit(Pow2(i), j) <==> j == i {
      Pow2Bit(i, j);
    }
    Pow2(i)
  }

  /** The code with exactly the bits `0 .. n - 1` set. */
  function LowMask(n: nat): (m: Code)
    requires n <= Width
    ensures forall i: nat :: HasBit(m, i) <==> i < n
  {
    Pow2Monotonic(n, Width);
    var m := Pow2(n) - 1;
    forall i: nat ensures HasBit(m, i) <==> i < n {
      LowMaskBit(n, i);
    }
    m
  }

  // ---------------------------------------------------------------------
  // Digit-level facts.

  lemma {:induction false} Pow2Monotonic(i: nat, j: nat)
    requires i <= j
    ensures Pow2(i) <= Pow2(j)
    ensures i < j ==> Pow2(i) < Pow2(j)
  {
    if i < j {
      Pow2Monotonic(i, j - 1);
    }
  }

  lemma {:induction false} NoBitOfZero(i: nat)
    ensures !HasBit(0, i)
  {
    if i > 0 {
      NoBitOfZero(i - 1);
    }
  }

  lemma NoBitOfZeroAll()
    ensures forall i: nat :: !HasBit(0, i)
  {
    forall i: nat ensures !HasBit(0, i) {
      NoBitOfZero(i);
    }
  }

  lemma {:induction false} Pow2Bit(k: nat, i: nat)
    ensures HasBit(Pow2(k), i) <==> i == k
  {
    if i == 0 {
    } else if k == 0 {
      NoBitOfZero(i - 1);
    } else {
      Pow2Bit(k - 1, i - 1);
    }
  }

  lemma {:induction false} LowMaskBit(n: nat, i: nat)
    ensures HasBit(Pow2(n) - 1, i) <==> i < n
  {
    if n == 0 {
      NoBitOfZero(i);
    } else if i > 0 {
      assert (Pow2(n) - 1) / 2 == Pow2(n - 1) - 1;
      LowMaskBit(n - 1, i - 1);
    }
  }

  lemma {:induction false} BitOrBit(a: nat, b: nat, i: nat)
    ensures HasBit(BitOr(a, b), i) <==> HasBit(a, i) || HasBit(b, i)
    decreases i
  {
    if a == 0 && b == 0 {
      NoBitOfZero(i);
    } else if i > 0 {
      BitOrBit(a / 2, b / 2, i - 1);
    }
  }

  lemma {:induction false} BitAndBit(a: nat, b: nat, i: nat)
    ensures HasBit(BitAnd(a, b), i) <==> HasBit(a, i) && HasBit(b, i)
    decreases i
  {
    if a == 0 || b == 0 {
      NoBitOfZero(i);
    } else if i > 0 {
      BitAndBit(a / 2, b / 2, i - 1);
    }
  }

  /** Two numbers below 2^w with the same digits below `w` are equal. */
  lemma {:induction false} BitsDetermine(a: nat, b: nat, w: nat)
    requires a < Pow2(w) && b < Pow2(w)
    requires forall i: nat :: i < w ==> (HasBit(a, i) <==> HasBit(b, i))
    ensures a == b
  {
    if w > 0 {
      assert HasBit(a, 0) <==> HasBit(b, 0);
      forall i: nat | i < w - 1 ensures HasBit(a / 2, i) <==> HasBit(b / 2, i) {
        assert HasBit(a, i + 1) <==> HasBit(b, i + 1);
      }
      BitsDetermine(a / 2, b / 2, w - 1);
    }
  }

  /** `|` of two `w`-bit numbers is a `w`-bit number. */
  lemma {:induction false} BitOrBound(a: nat, b: nat, w: nat)
    requires a < Pow2(w) && b < Pow2(w)
    ensures BitOr(a, b) < Pow2(w)
    decreases w
  {
    if (a != 0 || b != 0) && w > 0 {
      BitOrBound(a / 2, b / 2, w - 1);
    }
  }

  /** `&` with a `w`-bit left operand is a `w`-bit number. */
  lemma {:induction false} BitAndBound(a: nat, b: nat, w: nat)
    requires a < Pow2(w)
    ensures BitAnd(a, b) < Pow2(w)
    decreases w
  {
    if a != 0 && b != 0 && w > 0 {
      BitAndBound(a / 2, b / 2, w - 1);
    }
  }

  /** Java's `(code & (1L << i)) != 0` tests bit `i` of the code. */
  lemma MaskTest(c: Code, i: nat)
    requires i < Width
    ensures BitAnd(c, Bit(i)) != 0 <==> HasBit(c, i)
  {
    var m := BitAnd(c, Bit(i));
    BitAndBound(c, Bit(i), Width);
    NoBitOfZeroAll();
    forall j: nat ensures HasBit(m, j) <==> j == i && HasBit(c, i) {
      BitAndBit(c, Bit(i), j);
    }
    if !HasBit(c, i) {
      BitsDetermine(m, 0, Width);
    }
  }

  // ---------------------------------------------------------------------
  // The specifications of `encode` and `decode`.

  /** Whether every ordinal in `s` names a bit of a `long`. */
  predicate Encodable(s: set<nat>)
  {
    forall e :: e in s ==> e < Width
  }

  /**
   * The OR, over every ordinal below `k` that the set holds, of that
   * ordinal's bit: bit `i` of the result is set exactly when `i < k` and the
   * set holds `i`.
   */
  function PackBelow(s: set<nat>, k: nat): (c: Code)
    requires k <= Width
    ensures forall i: nat :: HasBit(c, i) <==> i < k && i in s
  {
    if k == 0 then
      NoBitOfZeroAll();
      0
    else
      var low := PackBelow(s, k - 1);
      var bit: Code := if k - 1 in s then Bit(k - 1) else 0;
      BitOrBound(low, bit, Width);
      NoBitOfZeroAll();
      forall i: nat ensures HasBit(BitOr(low, bit), i) <==> HasBit(low, i) || HasBit(bit, i) {
        BitOrBit(low, bit, i);
      }
      BitOr(low, bit)
  }

  /** The code of a set: the OR of the bits of its ordinals below 64. */
  function Pack(s: set<nat>): Code
  {
    PackBelow(s, Width)
  }

  /** The constants of an enum type with `constants` constants whose bit is set in `code`. */
  function Members(code: Code, constants: nat): set<nat>
    requires constants <= Width
  {
    set e: nat | e < constants && HasBit(code, e)
  }

  // ---------------------------------------------------------------------
  // Properties of the specifications.

  /** Bit membership: bit `i` of the code of `s` is set exactly when `s` holds ordinal `i`. */
  lemma PackBit(s: set<nat>, i: nat)
    requires i < Width
    ensures HasBit(Pack(s), i) <==> i in s
  {
  }

  /** The empty set encodes to 0. */
  lemma PackEmpty()
    ensures Pack({}) == 0
  {
    NoBitOfZeroAll();
    BitsDetermine(Pack({}), 0, Width);
  }

  /** One step of `encode`'s loop: adding an ordinal ORs its bit into the code. */
  lemma PackInsert(s: set<nat>, v: nat)
    requires v < Width
    ensures Pack(s + {v}) == BitOr(Pack(s), Bit(v))
  {
    BitOrBound(Pack(s), Bit(v), Width);
    forall i: nat | i < Width ensures HasBit(Pack(s + {v}), i) <==> HasBit(BitOr(Pack(s), Bit(v)), i) {
      BitOrBit(Pack(s), Bit(v), i);
    }
    BitsDetermine(Pack(s + {v}), BitOr(Pack(s), Bit(v)), Width);
  }

  /** Distinct sets of ordinals below 64 have distinct codes. */
  lemma PackInjective(s: set<nat>, t: set<nat>)
    requires Encodable(s) && Encodable(t)
    requires Pack(s) == Pack(t)
    ensures s == t
  {
    forall e | e in s ensures e in t {
      PackBit(s, e);
      PackBit(t, e);
    }
    forall e | e in t ensures e in s {
      PackBit(s, e);
      PackBit(t, e);
    }
  }

  /** `decode` of 0 is the empty set. */
  lemma DecodeZero(constants: nat)
    requires constants <= Width
    ensures Members(0, constants) == {}
  {
    NoBitOfZeroAll();
    assert forall e :: e !in Members(0, constants);
  }

  /**
   * Bits that name no constant are dropped: codes that agree on the low
   * `constants` bits decode to the same set.
   */
  lemma DecodeIgnoresUnknownBits(c: Code, d: Code, constants: nat)
    requires constants <= Width
    requires BitAnd(c, LowMask(constants)) == BitAnd(d, LowMask(constants))
    ensures Members(c, constants) == Members(d, constants)
  {
    forall e: nat | e < constants ensures HasBit(c, e) <==> HasBit(d, e) {
      BitAndBit(c, LowMask(constants), e);
      BitAndBit(d, LowMask(constants), e);
    }
  }

  /** Round trip: decoding the code of a set of constants gives back that set. */
  lemma DecodeEncode(s: set<nat>, constants: nat)
    requires constants <= Width
    requires forall e :: e in s ==> e < constants
    ensures Members(Pack(s), constants) == s
  {
  }

  /** Encoding a decoded set gives the code masked to its low `constants` bits. */
  lemma EncodeDecode(c: Code, constants: nat)
    requires constants <= Width
    ensures Pack(Members(c, constants)) == BitAnd(c, LowMask(constants))
  {
    var masked := BitAnd(c, LowMask(constants));
    BitAndBound(c, LowMask(constants), Width);
    forall i: nat | i < Width ensures HasBit(Pack(Members(c, constants)), i) <==> HasBit(masked, i) {
      BitAndBit(c, LowMask(constants), i);
    }
    BitsDetermine(Pack(Members(c, constants)), masked, Width);
  }

  // ---------------------------------------------------------------------
  // Iteration order.

  /** The ordinals a sequence visits. */
  function Elements(xs: seq<nat>): set<nat>
  {
    set x | x in xs
  }

  /**
   * The accumulator after `encode`'s loop has visited the ordinals `xs`, in
   * this order. `Encode` picks its next element with `:|`, so its contract
   * `code == Pack(s)` already holds for every visiting order; this fold
   * names one order explicitly, so that order independence can be stated
   * as a relation between two orders, and `EncodeInOrderIsPack` shows it
   * ends where `Encode` does.
   */
  function EncodeInOrder(xs: seq<nat>): Code
    requires forall k :: 0 <= k < |xs| ==> xs[k] < Width
  {
    if xs == [] then 0
    else
      var low := EncodeInOrder(xs[..|xs| - 1]);
      BitOrBound(low, Bit(xs[|xs| - 1]), Width);
      BitOr(low, Bit(xs[|xs| - 1]))
  }

  /** Whatever order the loop visits the ordinals in, the accumulator is the code of what it visited. */
  lemma {:induction false} EncodeInOrderIsPack(xs: seq<nat>)
    requires forall k :: 0 <= k < |xs| ==> xs[k] < Width
    ensures EncodeInOrder(xs) == Pack(Elements(xs))
  {
    if xs == [] {
      assert Elements(xs) == {};
      PackEmpty();
    } else {
      var init := xs[..|xs| - 1];
      EncodeInOrderIsPack(init);
      assert EncodeInOrder(xs) == BitOr(EncodeInOrder(init), Bit(xs[|xs| - 1]));
      assert Elements(xs) == Elements(init) + {xs[|xs| - 1]};
      PackInsert(Elements(init), xs[|xs| - 1]);
    }
  }

  /** `encode` does not depend on the order in which the set is iterated. */
  lemma EncodeOrderIrrelevant(xs: seq<nat>, ys: seq<nat>)
    requires forall k :: 0 <= k < |xs| ==> xs[k] < Width
    requires multiset(xs) == multiset(ys)
    ensures forall k :: 0 <= k < |ys| ==> ys[k] < Width
    ensures EncodeInOrder(xs) == EncodeInOrder(ys)
  {
    forall e ensures e in xs <==> e in ys {
      assert e in xs <==> e in multiset(xs);
      assert e in ys <==> e in multiset(ys);
    }
    forall k | 0 <= k < |ys| ensures ys[k] < Width {
      assert ys[k] in xs;
    }
    EncodeInOrderIsPack(xs);
    EncodeInOrderIsPack(ys);
    assert Elements(xs) == Elements(ys);
  }

  // ---------------------------------------------------------------------
  // The two operations, with the loops of the source.

  /**
   * `encode`: start from 0 and OR in `1L << ordinal` for every constant of
   * the set, in whatever order the set is iterated. Ordinals must be below
   * 64: Java would take the shift distance modulo 64.
   */
  method Encode(s: set<nat>) returns (code: Code)
    requires Encodable(s)
    ensures code == Pack(s)
    ensures forall i: nat :: i < Width ==> (HasBit(code, i) <==> i in s)
  {
    code := 0;
    var rest := s;
    PackEmpty();
    assert s - rest == {};
    while rest != {}
      invariant rest <= s
      invariant code == Pack(s - rest)
      decreases rest
    {
      var v :| v in rest;
      PackInsert(s - rest, v);
      assert (s - rest) + {v} == s - (rest - {v});
      code := BitOr(code, Bit(v));
      rest := rest - {v};
    }
    assert s - rest == s;
  }

  /**
   * `decode`: go through the constants of the enum type in ordinal order
   * and keep each one whose bit is set in `code`.
   */
  method Decode(code: Code, constants: nat) returns (result: set<nat>)
    requires constants <= Width
    ensures result == Members(code, constants)
    ensures forall e: nat :: e in result <==> e < constants && HasBit(code, e)
  {
    result := {};
    var e := 0;
    while e < constants
      invariant e <= constants
      invariant result == Members(code, e)
    {
      var bitMask := Bit(e);
      MaskTest(code, e);
      if BitAnd(code, bitMask) != 0 {
        result := result + {e};
      }
      e := e + 1;
    }
  }

  // ---------------------------------------------------------------------
  // The codec's own test case: an enum of the seven days of the week.

  const Monday: nat := 0
  const Tuesday: nat := 1
  const Wednesday: nat := 2
  const Thursday: nat := 3
  const Friday: nat := 4
  const Saturday: nat := 5
  const Sunday: nat := 6
  const DaysOfTheWeek: nat := 7

  /** {MONDAY, TUESDAY, FRIDAY} encodes to 1 + 2 + 16 = 19, and 19 decodes back to it. */
  lemma WeekdayCode()
    ensures Pack({Monday, Tuesday, Friday}) == 19
    ensures Members(19, DaysOfTheWeek) == {Monday, Tuesday, Friday}
  {
    PackEmpty();
    PackInsert({}, Monday);
    assert {} + {Monday} == {Monday};
    PackInsert({Monday}, Tuesday);
    assert {Monday} + {Tuesday} == {Monday, Tuesday};
    PackInsert({Monday, Tuesday}, Friday);
    assert {Monday, Tuesday} + {Friday} == {Monday, Tuesday, Friday};
    DecodeEncode({Monday, Tuesday, Friday}, DaysOfTheWeek);
  }
}
