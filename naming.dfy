/**
 * Names of rooms and doors (src/plan.py, Room.__init__ and Door.__init__).
 *
 * A room of category C that is the k-th room of C in parse order is named
 * "C_k"; the door at parse position i is named "Door_<i+1>".  Python's
 * `'{}'.format(n)` on a non-negative int is its decimal spelling, modelled by
 * NatToString, whose inverse DigitsValue shows that the spelling is unambiguous.
 */
module Naming {

  /** Decimal spelling of a natural number, most significant digit first, no leading zeros. */
  function NatToString(n: nat): (s: string)
    ensures |s| >= 1 && (s[0] == '0' ==> n == 0)
    decreases n
  {
    if n < 10 then [DigitChar(n)] else NatToString(n / 10) + [DigitChar(n % 10)]
  }

  function DigitChar(d: nat): char
    requires d < 10
  {
    "0123456789"[d]
  }

  predicate IsDigit(c: char) {
    '0' <= c <= '9'
  }

  predicate AllDigits(s: string) {
    forall k :: 0 <= k < |s| ==> IsDigit(s[k])
  }

  /** Numeric value of a string of decimal digits. */
  function DigitsValue(s: string): nat
    requires AllDigits(s)
  {
    if s == [] then 0 else DigitsValue(s[..|s| - 1]) * 10 + (s[|s| - 1] as int - '0' as int)
  }

  /** The spelling is never empty and consists of digits only. */
  lemma {:induction false} NatToStringDigits(n: nat)
    ensures |NatToString(n)| >= 1 && AllDigits(NatToString(n))
    decreases n
  {
    if n >= 10 {
      NatToStringDigits(n / 10);
    }
  }

  /** Reading the decimal spelling back gives the number: the spelling is a round trip. */
  lemma {:induction false} NatToStringRoundTrip(n: nat)
    ensures AllDigits(NatToString(n)) && DigitsValue(NatToString(n)) == n
    decreases n
  {
    NatToStringDigits(n);
    if n >= 10 {
      var s := NatToString(n);
      NatToStringRoundTrip(n / 10);
      assert s[..|s| - 1] == NatToString(n / 10);
    }
  }

  /** Different numbers are spelled differently. */
  lemma NatToStringInjective(a: nat, b: nat)
    ensures NatToString(a) == NatToString(b) ==> a == b
  {
    NatToStringRoundTrip(a);
    NatToStringRoundTrip(b);
  }

  /** Room.__init__: `'{}_{}'.format(self.type, room_type_count[self.type] + 1)`. */
  function RoomName(category: string, seqNo: nat): (name: string)
    ensures |category| < |name| && name[..|category|] == category && name[|category|] == '_'
  {
    category + "_" + NatToString(seqNo)
  }

  /** Door.__init__: `'Door_{}'.format(idx + 1)`. */
  function DoorName(idx: nat): (name: string)
    ensures |name| > 5 && name[..5] == "Door_"
  {
    "Door_" + NatToString(idx + 1)
  }

  /** In c + "_" + d with d all digits, the only underscore at or after position |c| is at |c|. */
  lemma LastUnderscore(c: string, d: string)
    requires AllDigits(d)
    ensures (c + "_" + d)[|c|] == '_'
    ensures forall p :: |c| < p < |c + "_" + d| ==> (c + "_" + d)[p] != '_'
  {
    var s := c + "_" + d;
    forall p | |c| < p < |s| ensures s[p] != '_' {
      assert s[p] == d[p - |c| - 1];
    }
  }

  /** Two strings of the form prefix + "_" + digits that are equal have equal parts. */
  lemma UnderscoreSplit(c1: string, d1: string, c2: string, d2: string)
    requires AllDigits(d1) && AllDigits(d2)
    requires c1 + "_" + d1 == c2 + "_" + d2
    ensures c1 == c2 && d1 == d2
  {
    var s := c1 + "_" + d1;
    LastUnderscore(c1, d1);
    LastUnderscore(c2, d2);
    assert |c1| == |c2|;
    assert c1 == s[..|c1|];
    assert d1 == s[|c1| + 1..];
  }

  /** A room name determines its category and its sequence number, whatever the categories are. */
  lemma RoomNameInjective(c1: string, k1: nat, c2: string, k2: nat)
    ensures RoomName(c1, k1) == RoomName(c2, k2) <==> c1 == c2 && k1 == k2
  {
    if RoomName(c1, k1) == RoomName(c2, k2) {
      NatToStringDigits(k1);
      NatToStringDigits(k2);
      UnderscoreSplit(c1, NatToString(k1), c2, NatToString(k2));
      NatToStringInjective(k1, k2);
    }
  }

  /** Doors at different parse positions get different names. */
  lemma DoorNameInjective(i: nat, j: nat)
    ensures DoorName(i) == DoorName(j) <==> i == j
  {
    if DoorName(i) == DoorName(j) {
      assert NatToString(i + 1) == DoorName(i)[5..];
      NatToStringInjective(i + 1, j + 1);
    }
  }

  /** How many entries of s equal c: the value `room_type_count[c]` after counting s. */
  function Count(s: seq<string>, c: string): (n: nat)
    ensures n <= |s|
  {
    if s == [] then 0 else Count(s[..|s| - 1], c) + (if s[|s| - 1] == c then 1 else 0)
  }

  /** Count is the multiplicity of c in s. */
  lemma {:induction false} CountIsMultiplicity(s: seq<string>, c: string)
    ensures Count(s, c) == multiset(s)[c]
  {
    if s != [] {
      CountIsMultiplicity(s[..|s| - 1], c);
      assert s == s[..|s| - 1] + [s[|s| - 1]];
    }
  }

  /** Counting a longer prefix never gives less. */
  lemma {:induction false} CountPrefixMonotonic(s: seq<string>, c: string, i: nat, j: nat)
    requires i <= j <= |s|
    ensures Count(s[..i], c) <= Count(s[..j], c)
  {
    if i < j {
      CountPrefixMonotonic(s, c, i, j - 1);
      assert s[..j][..j - 1] == s[..j - 1];
    }
  }

  /** Counting a prefix that ends in an absent stretch gives the same as counting up to it. */
  lemma {:induction false} CountSkips(s: seq<string>, c: string, i: nat, j: nat)
    requires i <= j <= |s|
    requires forall q :: i <= q < j ==> s[q] != c
    ensures Count(s[..i], c) == Count(s[..j], c)
  {
    if i < j {
      CountSkips(s, c, i, j - 1);
      assert s[..j][..j - 1] == s[..j - 1];
    }
  }

  /**
   * The sequence number of the room at parse position k: one more than the
   * number of earlier rooms of its category, i.e. `room_type_count[C] + 1`
   * when room k is created.
   */
  function SeqNo(categories: seq<string>, k: nat): (n: nat)
    requires k < |categories|
    ensures 1 <= n <= k + 1
  {
    Count(categories[..k], categories[k]) + 1
  }

  /** The name the parse loop gives to the room at position k. */
  function NameAt(categories: seq<string>, k: nat): (name: string)
    requires k < |categories|
    ensures |categories[k]| < |name| && name[..|categories[k]|] == categories[k]
  {
    RoomName(categories[k], SeqNo(categories, k))
  }

  /** Later rooms of the same category get strictly larger sequence numbers. */
  lemma SeqNoIncreasing(categories: seq<string>, k1: nat, k2: nat)
    requires k1 < k2 < |categories| && categories[k1] == categories[k2]
    ensures SeqNo(categories, k1) < SeqNo(categories, k2)
  {
    var c := categories[k1];
    assert categories[..k1 + 1][..k1] == categories[..k1];
    CountPrefixMonotonic(categories, c, k1 + 1, k2);
  }

  /** Room names given by the parse loop are pairwise distinct. */
  lemma NamesDistinct(categories: seq<string>, k1: nat, k2: nat)
    requires k1 < |categories| && k2 < |categories| && k1 != k2
    ensures NameAt(categories, k1) != NameAt(categories, k2)
  {
    RoomNameInjective(categories[k1], SeqNo(categories, k1), categories[k2], SeqNo(categories, k2));
    if categories[k1] == categories[k2] {
      if k1 < k2 {
        SeqNoIncreasing(categories, k1, k2);
      } else {
        SeqNoIncreasing(categories, k2, k1);
      }
    }
  }

  /** The last room of a category carries, as its sequence number, the number of rooms of that category. */
  lemma LastSeqNoIsCount(categories: seq<string>, k: nat)
    requires k < |categories|
    requires forall k' :: k < k' < |categories| ==> categories[k'] != categories[k]
    ensures SeqNo(categories, k) == multiset(categories)[categories[k]]
  {
    var c := categories[k];
    assert categories[..k + 1][..k] == categories[..k];
    CountSkips(categories, c, k + 1, |categories|);
    assert categories[..|categories|] == categories;
    CountIsMultiplicity(categories, c);
  }
}
