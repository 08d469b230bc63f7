/**
  The lower bound on session-id space (internal/profilevalidation/transport.go): a sum of
  powers capped at 2^31, compared against the exact unbounded sum.
*/
module SessionRoom {

  const MINIMUM := 0x8000_0000

  /** A table is a string of bytes. */
  type Byte = c: char | c as int < 256
  type Table = seq<Byte>

  function Pow(base: nat, n: nat): nat {
    if n == 0 then 1 else base * Pow(base, n - 1)
  }

  /** Identifiers with a length between `from` and `to`. */
  function Room(alphabet: nat, from: nat, to: int): nat
    decreases to - from
  {
    if to < from then 0 else Room(alphabet, from, to - 1) + Pow(alphabet, to)
  }

  // ---------------------------------------------------------------- alphabet size

  function Symbols(table: Table): set<char> {
    set c | c in table
  }

  /** The named tables; 0 for any other string. */
  function Predefined(table: string): nat {
    if table in {"ALPHABET", "Alphabet"} then 52
    else if table in {"BASE36", "base36"} then 36
    else if table == "Base62" then 62
    else if table in {"HEX", "hex"} then 16
    else if table == "alphabet" then 26
    else if table == "number" then 10
    else 0
  }

  /** The named tables are those nine names, and each stands for as many symbols as it says. */
  lemma PredefinedSizes(table: string)
    ensures Predefined("ALPHABET") == Predefined("Alphabet") == 52 && Predefined("alphabet") == 26
    ensures Predefined("BASE36") == Predefined("base36") == 36 && Predefined("Base62") == 62
    ensures Predefined("HEX") == Predefined("hex") == 16 && Predefined("number") == 10
    ensures Predefined(table) > 0 <==>
      table in {"ALPHABET", "Alphabet", "BASE36", "Base62", "HEX", "alphabet", "base36", "hex", "number"}
  {
  }

  function AlphabetSize(table: Table): nat {
    if Predefined(table) > 0 then Predefined(table) else |Symbols(table)|
  }

  lemma {:induction false} FewBytes(s: set<char>, n: nat)
    requires n <= 256 && forall c | c in s :: c as int < n
    ensures |s| <= n
  {
    if n == 0 {
      assert s == {};
    } else {
      var last := (n - 1) as char;
      FewBytes(s - {last}, n - 1);
      assert s <= (s - {last}) + {last};
      assert |s| <= |s - {last}| + 1;
    }
  }

  /** sessionAlphabetSize: the distinct bytes of a custom table, never more than 256. */
  method SessionAlphabetSize(table: Table) returns (size: nat)
    ensures size == AlphabetSize(table) <= 256
  {
    if Predefined(table) > 0 {
      return Predefined(table);
    }
    var seen: set<char> := {};
    for i := 0 to |table|
      invariant seen == Symbols(table[..i])
    {
      assert table[..i + 1] == table[..i] + [table[i]];
      seen := seen + {table[i]};
    }
    assert table[..|table|] == table;
    FewBytes(seen, 256);
    return |seen|;
  }

  // ---------------------------------------------------------------- powers around 2^31

  lemma {:induction false} PowMonotone(a: nat, b: nat, n: nat)
    requires a <= b
    ensures Pow(a, n) <= Pow(b, n)
  {
    if n > 0 {
      PowMonotone(a, b, n - 1);
      MulMonotone(a, b, Pow(a, n - 1), Pow(b, n - 1));
    }
  }

  lemma MulMonotone(a: nat, b: nat, x: nat, y: nat)
    requires a <= b && x <= y
    ensures a * x <= b * y
  {
    assert a * x <= a * y;
    assert a * y <= b * y;
  }

  lemma {:induction false} PowGrows(base: nat, m: nat, n: nat)
    requires base >= 1 && m <= n
    ensures 1 <= Pow(base, m) <= Pow(base, n)
    decreases n
  {
    if m < n {
      PowGrows(base, m, n - 1);
      MulMonotone(1, base, Pow(base, n - 1), Pow(base, n - 1));
    } else if n > 0 {
      PowGrows(base, m - 1, n - 1);
      MulMonotone(1, base, 1, Pow(base, n - 1));
    }
  }

  /** The largest base whose n-th power stays below 2^31 (for n from 1 to 31). */
  function LargestBase(n: nat): nat
    requires 1 <= n <= 31
  {
    if n == 1 then 256 else if n == 2 then 256 else if n == 3 then 256 else if n == 4 then 215
    else if n == 5 then 73 else if n == 6 then 35 else if n == 7 then 21 else if n == 8 then 14
    else if n == 9 then 10 else if n == 10 then 8 else if n == 11 then 7 else if n <= 13 then 5
    else if n <= 15 then 4 else if n <= 19 then 3 else if n <= 30 then 2 else 1
  }

  lemma FiveMore(base: nat, n: nat)
    ensures Pow(base, n + 5) == base * (base * (base * (base * (base * Pow(base, n)))))
  {
    assert Pow(base, n + 5) == base * Pow(base, n + 4);
    assert Pow(base, n + 4) == base * Pow(base, n + 3);
    assert Pow(base, n + 3) == base * Pow(base, n + 2);
    assert Pow(base, n + 2) == base * Pow(base, n + 1);
  }

  /** The powers of small bases that the table below needs. */
  lemma SmallPowers()
    ensures Pow(3, 19) == 1162261467 && Pow(3, 20) == 3486784401 && Pow(4, 16) == 4294967296
    ensures Pow(2, 20) == 1048576 && Pow(2, 30) == 1073741824 && Pow(2, 31) == MINIMUM && Pow(1, 31) == 1
  {
    assert Pow(3, 10) == 59049 && Pow(4, 11) == 4194304 && Pow(2, 10) == 1024 && Pow(1, 11) == 1;
    FiveMore(3, 10);
    assert Pow(3, 19) == 3 * (3 * (3 * (3 * Pow(3, 15))));
    assert Pow(3, 20) == 3 * Pow(3, 19);
    FiveMore(4, 11);
    FiveMore(2, 10);
    FiveMore(2, 15);
    FiveMore(2, 20);
    FiveMore(2, 25);
    assert Pow(2, 31) == 2 * Pow(2, 30);
    FiveMore(1, 11);
    FiveMore(1, 16);
    FiveMore(1, 21);
    FiveMore(1, 26);
  }

  /** No power of a base in 2..256 lies within 256 below 2^31. */
  lemma PowersAvoidTheEdge(n: nat)
    requires 1 <= n <= 31
    ensures Pow(LargestBase(n), n) <= MINIMUM - 256
    ensures LargestBase(n) < 256 ==> Pow(LargestBase(n) + 1, n) >= MINIMUM
  {
    if n <= 10 {
      EdgesTo10(n);
    } else if n <= 15 {
      EdgesTo15(n);
    } else if n <= 20 {
      EdgesTo20(n);
    } else {
      EdgesTo31(n);
    }
  }

  lemma EdgesTo10(n: nat)
    requires 1 <= n <= 10
    ensures Pow(LargestBase(n), n) <= MINIMUM - 256
    ensures LargestBase(n) < 256 ==> Pow(LargestBase(n) + 1, n) >= MINIMUM
  {
    assert Pow(256, 1) == 256 && Pow(256, 2) == 65536 && Pow(256, 3) == 16777216;
    assert Pow(215, 4) == 2136750625 && Pow(216, 4) == 2176782336;
    assert Pow(73, 5) == 2073071593 && Pow(74, 5) == 2219006624;
    assert Pow(35, 6) == 1838265625 && Pow(36, 6) == 2176782336;
    assert Pow(21, 7) == 1801088541 && Pow(22, 7) == 2494357888;
    assert Pow(14, 8) == 1475789056 && Pow(15, 8) == 2562890625;
    assert Pow(10, 9) == 1000000000 && Pow(11, 9) == 2357947691;
    assert Pow(8, 10) == 1073741824 && Pow(9, 10) == 3486784401;
  }

  lemma EdgesTo15(n: nat)
    requires 11 <= n <= 15
    ensures Pow(LargestBase(n), n) <= MINIMUM - 256
    ensures Pow(LargestBase(n) + 1, n) >= MINIMUM
  {
    assert Pow(7, 11) == 1977326743 && Pow(8, 11) == 8589934592;
    assert Pow(5, 12) == 244140625 && Pow(6, 12) == 2176782336;
    assert Pow(5, 13) == 1220703125 && Pow(6, 13) == 13060694016;
    assert Pow(4, 14) == 268435456 && Pow(5, 14) == 6103515625;
    assert Pow(4, 15) == 1073741824 && Pow(5, 15) == 30517578125;
  }

  lemma EdgesTo20(n: nat)
    requires 16 <= n <= 20
    ensures Pow(LargestBase(n), n) <= MINIMUM - 256
    ensures Pow(LargestBase(n) + 1, n) >= MINIMUM
  {
    SmallPowers();
    if n <= 19 {
      PowGrows(3, n, 19);
      PowGrows(4, 16, n);
    }
  }

  lemma EdgesTo31(n: nat)
    requires 21 <= n <= 31
    ensures Pow(LargestBase(n), n) <= MINIMUM - 256
    ensures Pow(LargestBase(n) + 1, n) >= MINIMUM
  {
    SmallPowers();
    PowGrows(3, 20, n);
    if n <= 30 {
      PowGrows(2, n, 30);
    }
  }

  /** The guard of saturatedPow is exact: dividing the limit loses no power. */
  lemma GuardIsExact(base: nat, n: nat)
    requires 2 <= base <= 256 && 1 <= n <= 31
    ensures Pow(base, n - 1) >= MINIMUM / base <==> Pow(base, n) >= MINIMUM
  {
    PowersAvoidTheEdge(n);
    var p, b := Pow(base, n - 1), LargestBase(n);
    assert Pow(base, n) == base * p;
    if base <= b {
      PowMonotone(base, b, n);
      assert base * p <= MINIMUM - 256;
      QuotientAbove(base, p);
    } else {
      PowMonotone(b + 1, base, n);
      QuotientBelow(base, p);
    }
  }

  lemma QuotientAbove(base: nat, p: nat)
    requires 2 <= base <= 256 && base * p <= MINIMUM - 256
    ensures p < MINIMUM / base
  {
    var q := MINIMUM / base;
    assert base * q + base > MINIMUM;
    if p >= q {
      MulMonotone(base, base, q, p);
    }
  }

  lemma QuotientBelow(base: nat, p: nat)
    requires base >= 1 && base * p >= MINIMUM
    ensures p >= MINIMUM / base
  {
    var q := MINIMUM / base;
    assert base * q <= MINIMUM;
    if p < q {
      MulMonotone(base, base, p + 1, q);
    }
  }

  function Min(a: nat, b: nat): nat {
    if a < b then a else b
  }

  /** The power, or the limit once the power before it reaches the divided limit. */
  function Saturated(base: nat, exponent: int, limit: nat): nat
    requires exponent > 0 ==> base >= 1
  {
    if exponent <= 0 then 1
    else if Pow(base, exponent - 1) >= limit / base then limit
    else Pow(base, exponent)
  }

  /** saturatedPow; every product it forms is below the limit. */
  method SaturatedPow(base: nat, exponent: int, limit: nat) returns (result: nat)
    requires exponent > 0 ==> base >= 1
    ensures result == Saturated(base, exponent, limit)
  {
    result := 1;
    var index := 0;
    while index < exponent
      invariant 0 <= index && (index <= exponent || index == 0)
      invariant result == Pow(base, index)
      invariant index > 0 ==> Pow(base, index - 1) < limit / base && result < limit
    {
      if result >= limit / base {
        PowGrows(base, index, exponent - 1);
        return limit;
      }
      QuotientBound(base, result, limit);
      result := result * base;
      index := index + 1;
    }
  }

  lemma QuotientBound(base: nat, p: nat, limit: nat)
    requires base >= 1 && p < limit / base
    ensures base * p == p * base < limit
  {
    var q := limit / base;
    MulMonotone(base, base, p + 1, q);
    assert base * (p + 1) == base * p + base;
    assert base * q <= limit;
  }

  /** For alphabets of 2 to 256 symbols and the limit 2^31 it is the exact power, capped. */
  lemma SaturationIsExact(base: nat, exponent: nat)
    requires 2 <= base <= 256 && exponent <= 31
    ensures Saturated(base, exponent, MINIMUM) == Min(Pow(base, exponent), MINIMUM)
  {
    if exponent > 0 {
      GuardIsExact(base, exponent);
    }
  }

  /** Saturation is early for exactly one power: the largest multiple of the base below a limit that is no multiple. */
  lemma SaturationIsEarlyIff(base: nat, exponent: nat, limit: nat)
    requires base >= 1 && exponent >= 1
    ensures Saturated(base, exponent, limit) != Min(Pow(base, exponent), limit)
       <==> limit % base != 0 && Pow(base, exponent) == limit - limit % base
  {
    var p, q, rest := Pow(base, exponent - 1), limit / base, limit % base;
    DivisionParts(limit, base);
    EarlyByOneQuotient(base, p, q, rest, limit);
    SaturatedStep(base, exponent, limit, p, q);
  }

  lemma DivisionParts(limit: nat, base: nat)
    requires base >= 1
    ensures limit == base * (limit / base) + limit % base && limit % base < base
  {
  }

  lemma SaturatedStep(base: nat, exponent: nat, limit: nat, p: nat, q: nat)
    requires base >= 1 && exponent >= 1 && p == Pow(base, exponent - 1) && q == limit / base
    ensures Saturated(base, exponent, limit) == if p >= q then limit else base * p
    ensures Pow(base, exponent) == base * p
  {
  }

  lemma NextMultiple(base: nat, p: nat, q: nat)
    requires p < q
    ensures base * p + base <= base * q
  {
    MulMonotone(base, base, p + 1, q);
    assert base * (p + 1) == base * p + base;
  }

  lemma EarlyByOneQuotient(base: nat, p: nat, q: nat, rest: nat, limit: nat)
    requires rest < base && limit == base * q + rest
    ensures (if p >= q then limit else base * p) != Min(base * p, limit) <==> rest != 0 && base * p == limit - rest
  {
    if p < q {
      NextMultiple(base, p, q);
    } else if p > q {
      NextMultiple(base, q, p);
    }
  }

  /** Other limits can be reported too early: 3 * 3 is 9, not 10. */
  lemma SaturationCanBeEarly()
    ensures Saturated(3, 2, 10) == 10 && Pow(3, 2) == 9
  {
    assert Pow(3, 1) == 3;
  }

  // ---------------------------------------------------------------- the bound

  lemma {:induction false} RoomGrows(alphabet: nat, from: nat, to: int, more: int)
    requires to <= more
    ensures Room(alphabet, from, to) <= Room(alphabet, from, more)
    decreases more - to
  {
    if to < more {
      RoomGrows(alphabet, from, to, more - 1);
    }
  }

  lemma LongIdentifiersSuffice(alphabet: nat, from: nat, to: int)
    requires alphabet >= 2 && from <= to && to >= 31
    ensures Room(alphabet, from, to) >= MINIMUM
  {
    PowersAvoidTheEdge(31);
    PowMonotone(2, alphabet, 31);
    PowGrows(alphabet, 31, to);
  }

  /** sessionRoomLargeEnough decides the exact, unbounded inequality. */
  method SessionRoomLargeEnough(table: Table, from: int, to: int) returns (enough: bool)
    ensures enough <==>
      AlphabetSize(table) >= 2 && 1 <= from <= to && Room(AlphabetSize(table), from, to) >= 2_147_483_648
  {
    var alphabet := SessionAlphabetSize(table);
    if alphabet < 2 || from < 1 || to < from {
      return false;
    }
    if from >= 31 {
      LongIdentifiersSuffice(alphabet, from, to);
      return true;
    }
    var last := to;
    if last > 31 {
      last := 31;
    }
    if to >= 31 {
      LongIdentifiersSuffice(alphabet, from, to);
      LongIdentifiersSuffice(alphabet, from, last);
    }
    var total := 0;
    for length := from to last + 1
      invariant total == Room(alphabet, from, length - 1) < MINIMUM
    {
      var term := SaturatedPow(alphabet, length, MINIMUM);
      SaturationIsExact(alphabet, length);
      if term >= MINIMUM - total {
        RoomGrows(alphabet, from, length, to);
        return true;
      }
      total := total + term;
    }
    return total >= MINIMUM;
  }
}
