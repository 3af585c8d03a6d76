/** Identifiers made from a prefix and a decimal counter. */
module Ids {

  predicate AllDigits(s: string) {
    forall i | 0 <= i < |s| :: '0' <= s[i] <= '9'
  }

  function Digit(d: nat): char
    requires d < 10
  {
    "0123456789"[d]
  }

  function Decimal(n: nat): (r: string)
    ensures r != "" && AllDigits(r)
  {
    if n < 10 then [Digit(n)] else Decimal(n / 10) + [Digit(n % 10)]
  }

  // Zero-padded to at least eight digits.
  function Padded(n: nat): string {
    Zeros(8 - |Decimal(n)|) + Decimal(n)
  }

  function Zeros(count: int): (r: string)
    ensures AllDigits(r)
  {
    if count <= 0 then "" else Zeros(count - 1) + "0"
  }

  function ChildId(parent: string, call: nat): string {
    parent + ":call:" + Decimal(call)
  }

  function CounterId(prefix: string, n: nat): string {
    prefix + "-" + Padded(n)
  }

  // The number a digit string spells.
  function Spelled(s: string): nat
    requires AllDigits(s)
  {
    if s == "" then 0 else 10 * Spelled(s[..|s| - 1]) + (s[|s| - 1] - '0') as nat
  }

  lemma {:induction false} DecimalSpells(n: nat)
    ensures Spelled(Decimal(n)) == n
  {
    if n < 10 {
      DigitSpells(n);
      assert [Digit(n)][..0] == "";
    } else {
      DecimalSpells(n / 10);
      DigitSpells(n % 10);
      assert Decimal(n)[..|Decimal(n)| - 1] == Decimal(n / 10);
    }
    hide Digit;
  }

  lemma DigitSpells(d: nat)
    requires d < 10
    ensures '0' <= Digit(d) <= '9' && (Digit(d) - '0') as nat == d
  {
  }

  lemma {:induction false} ZerosSpellNothing(count: int, s: string)
    requires AllDigits(s)
    ensures Spelled(Zeros(count) + s) == Spelled(s)
    decreases |s|, count
  {
    var padded := Zeros(count) + s;
    if s != "" {
      assert padded[..|padded| - 1] == Zeros(count) + s[..|s| - 1];
      ZerosSpellNothing(count, s[..|s| - 1]);
    } else if count > 0 {
      assert padded[..|padded| - 1] == Zeros(count - 1) + "";
      ZerosSpellNothing(count - 1, "");
    }
  }

  // The last character before a run of digits tells two such strings apart.
  lemma SameTail(left: string, right: string, leftDigits: string, rightDigits: string, mark: char)
    requires AllDigits(leftDigits) && AllDigits(rightDigits) && !('0' <= mark <= '9')
    requires left + [mark] + leftDigits == right + [mark] + rightDigits
    ensures left == right && leftDigits == rightDigits
  {
    var whole := left + [mark] + leftDigits;
    MarkIsLast(left, leftDigits, mark, |right|);
    MarkIsLast(right, rightDigits, mark, |left|);
    assert whole[|left|] == mark == whole[|right|];
    assert left == whole[..|left|] && right == whole[..|right|];
    assert leftDigits == whole[|left| + 1..] && rightDigits == whole[|right| + 1..];
  }

  // Behind the mark there are digits only.
  lemma MarkIsLast(left: string, digits: string, mark: char, i: nat)
    requires AllDigits(digits) && !('0' <= mark <= '9')
    ensures |left| < i < |left| + 1 + |digits| ==> (left + [mark] + digits)[i] != mark
  {
    if |left| < i < |left| + 1 + |digits| {
      assert (left + [mark] + digits)[i] == digits[i - |left| - 1];
    }
  }

  /** Over all parent strings, child ids included, a child id names one parent and one call. */
  lemma ChildIdsNeverCollide(parent: string, call: nat, otherParent: string, otherCall: nat)
    requires ChildId(parent, call) == ChildId(otherParent, otherCall)
    ensures parent == otherParent && call == otherCall
  {
    var left, right := parent + ":call", otherParent + ":call";
    assert parent + ":call:" == left + [':'] && otherParent + ":call:" == right + [':'];
    SameTail(left, right, Decimal(call), Decimal(otherCall), ':');
    assert parent == left[..|parent|] && otherParent == right[..|parent|];
    DecimalSpells(call);
    DecimalSpells(otherCall);
  }

  /** A provider's counter ids differ whenever their prefixes or counters do. */
  lemma CounterIdsNeverCollide(prefix: string, n: nat, otherPrefix: string, m: nat)
    requires CounterId(prefix, n) == CounterId(otherPrefix, m)
    ensures prefix == otherPrefix && n == m
  {
    hide Decimal, Zeros, Spelled;
    SameTail(prefix, otherPrefix, Padded(n), Padded(m), '-');
    ZerosSpellNothing(8 - |Decimal(n)|, Decimal(n));
    ZerosSpellNothing(8 - |Decimal(m)|, Decimal(m));
    DecimalSpells(n);
    DecimalSpells(m);
  }

  // --- What the ids look like ---

  lemma {:induction false} DecimalIsShort(n: nat)
    ensures Decimal(n)[0] == '0' <==> n == 0
    ensures n == 0 ==> Decimal(n) == "0"
  {
    if n >= 10 {
      DecimalIsShort(n / 10);
    }
    DigitSpells(n % 10);
    hide Digit;
  }

  lemma {:induction false} ZerosAreZero(count: int)
    ensures |Zeros(count)| == if count <= 0 then 0 else count
  {
    if count > 0 {
      ZerosAreZero(count - 1);
    }
  }

  // The digits of a counter id, behind its prefix and a dash.
  function CounterDigits(prefix: string, n: nat): (digits: string)
    requires |CounterId(prefix, n)| > |prefix|
  {
    CounterId(prefix, n)[|prefix| + 1..]
  }

  /** A counter id is its prefix, a dash and the counter in decimal, filled up with zeros to eight
      digits and no further. */
  lemma CounterIdReads(prefix: string, n: nat)
    ensures |CounterId(prefix, n)| > |prefix| && CounterId(prefix, n)[..|prefix| + 1] == prefix + "-"
    ensures var digits := CounterDigits(prefix, n);
            && AllDigits(digits) && Spelled(digits) == n && |digits| >= 8
            && (|digits| > 8 ==> digits[0] != '0')
  {
    hide Decimal, Spelled, Zeros, Digit;
    PaddedBehind(prefix, n);
    ZerosAreZero(8 - |Decimal(n)|);
    ZerosSpellNothing(8 - |Decimal(n)|, Decimal(n));
    DecimalSpells(n);
    DecimalIsShort(n);
    hide CounterDigits, CounterId;
  }

  lemma PaddedBehind(prefix: string, n: nat)
    ensures |CounterId(prefix, n)| > |prefix| && CounterId(prefix, n)[..|prefix| + 1] == prefix + "-"
    ensures CounterDigits(prefix, n) == Padded(n)
  {
    hide Padded;
  }

  /** A child id is the parent's, `:call:` and the number of the call in decimal without leading zeros. */
  lemma ChildIdReads(parent: string, call: nat)
    ensures |ChildId(parent, call)| > |parent| + 6 && ChildId(parent, call)[..|parent| + 6] == parent + ":call:"
    ensures var digits := ChildId(parent, call)[|parent| + 6..];
            && AllDigits(digits) && Spelled(digits) == call && (digits[0] == '0' ==> call == 0 && digits == "0")
  {
    assert ChildId(parent, call)[|parent| + 6..] == Decimal(call);
    DecimalSpells(call);
    DecimalIsShort(call);
    hide Decimal, Spelled;
  }
}
