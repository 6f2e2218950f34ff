/** The decimal recovery key and the 16-byte key it stands for (disk/Bitlocker/bitlocker.go). */
module RecoveryKeys {
  import opened Bytes
  import opened Wrappers

  // ---------- Groups ----------

  /** The parts of a string between dashes. */
  function Split(s: string): (groups: seq<string>)
    ensures groups != []
  {
    if s == "" then [""]
    else
      var rest := Split(s[1..]);
      if s[0] == '-' then [""] + rest else [[s[0]] + rest[0]] + rest[1..]
  }

  function Join(groups: seq<string>): string
    requires groups != []
  {
    if |groups| == 1 then groups[0] else groups[0] + "-" + Join(groups[1..])
  }

  lemma {:induction false} SplitGroup(g: string, s: string)
    requires '-' !in g
    ensures Split(g + s) == [g + Split(s)[0]] + Split(s)[1..]
  {
    if g == "" {
      assert g + s == s && g + Split(s)[0] == Split(s)[0];
      assert Split(s) == [Split(s)[0]] + Split(s)[1..];
    } else {
      SplitGroup(g[1..], s);
      assert (g + s)[0] == g[0] && (g + s)[1..] == g[1..] + s;
      assert [g[0]] + (g[1..] + Split(s)[0]) == g + Split(s)[0];
    }
  }

  /** A string is split at its first dash. */
  lemma SplitAtDash(g: string, s: string)
    requires '-' !in g
    ensures Split(g) == [g] && Split(g + "-" + s) == [g] + Split(s)
  {
    SplitGroup(g, "");
    assert g + "" == g && Split("") == [""];
    SplitGroup(g, "-" + s);
    assert ("-" + s)[0] == '-' && ("-" + s)[1..] == s;
    assert g + ("-" + s) == g + "-" + s;
  }

  /** Splitting undoes joining. */
  lemma {:induction false} SplitJoin(groups: seq<string>)
    requires groups != [] && forall g | g in groups :: '-' !in g
    ensures Split(Join(groups)) == groups
  {
    var g := groups[0];
    if |groups| == 1 {
      SplitGroup(g, "");
      assert g + "" == g && groups == [g];
    } else {
      var rest := "-" + Join(groups[1..]);
      SplitJoin(groups[1..]);
      assert rest[0] == '-' && rest[1..] == Join(groups[1..]);
      SplitGroup(g, rest);
      assert Join(groups) == g + rest;
      assert g + "" == g && Split(rest)[0] == "" && Split(rest)[1..] == groups[1..];
    }
  }

  predicate IsDigit(c: char)
  {
    '0' <= c <= '9'
  }

  predicate AllDigits(g: string)
  {
    forall c | c in g :: IsDigit(c)
  }

  function DigitValue(c: char): (d: nat)
    requires IsDigit(c)
    ensures d < 10
  {
    c as int - '0' as int
  }

  function DigitChar(d: nat): (c: char)
    requires d < 10
    ensures IsDigit(c) && DigitValue(c) == d
  {
    (d + '0' as int) as char
  }

  /** The number a string of digits denotes. */
  function Decimal(g: string): nat
    requires AllDigits(g)
  {
    if g == "" then 0 else Decimal(g[..|g| - 1]) * 10 + DigitValue(g[|g| - 1])
  }

  /** The last digit counts least. */
  lemma LastCountsLeast()
    ensures Decimal("90") == 90 && Decimal("907") == 907
  {
    assert "907"[..2] == "90" && "90"[..1] == "9" && "9"[..0] == "";
    assert AllDigits("90") && Decimal("9") == 9;
  }

  function Pow10(n: nat): nat
  {
    if n == 0 then 1 else 10 * Pow10(n - 1)
  }

  lemma {:induction false} DecimalBound(g: string)
    requires AllDigits(g)
    ensures Decimal(g) < Pow10(|g|)
  {
    if g != "" {
      DecimalBound(g[..|g| - 1]);
    }
  }

  /** A number in 64-bit two's-complement arithmetic. */
  function Wrap(v: int): int
  {
    (v + TWO_TO_63) % (2 * TWO_TO_63) - TWO_TO_63
  }

  /** The value the digit loop accumulates. */
  function Accumulated(g: string): int
    requires AllDigits(g)
  {
    if g == "" then 0 else Wrap(Accumulated(g[..|g| - 1]) * 10 + DigitValue(g[|g| - 1]))
  }

  lemma NoWrap(v: nat)
    requires v < TWO_TO_63
    ensures Wrap(v) == v
  {
  }

  lemma WrapRange(v: int) returns (k: int)
    ensures -0x8000_0000_0000_0000 <= Wrap(v) < 0x8000_0000_0000_0000 && Wrap(v) == v + k * 0x1_0000_0000_0000_0000
  {
    k := -((v + TWO_TO_63) / (2 * TWO_TO_63));
  }

  /** Of any number of digits the decimal value is accumulated as a signed 64-bit number. */
  lemma {:induction false} AccumulatedExact(g: string) returns (k: int)
    requires AllDigits(g)
    ensures -0x8000_0000_0000_0000 <= Accumulated(g) < 0x8000_0000_0000_0000
    ensures Accumulated(g) == Decimal(g) + k * 0x1_0000_0000_0000_0000
  {
    hide Wrap;
    k := 0;
    if g != "" {
      var i := AccumulatedExact(g[..|g| - 1]);
      var j := WrapRange(Accumulated(g[..|g| - 1]) * 10 + DigitValue(g[|g| - 1]));
      k := 10 * i + j;
    }
  }

  /** Up to 18 digits nothing wraps. */
  lemma {:induction false} ShortGroupExact(g: string)
    requires AllDigits(g) && |g| <= 18
    ensures Accumulated(g) == Decimal(g)
  {
    if g != "" {
      hide Wrap, Pow10;
      ShortGroupExact(g[..|g| - 1]);
      DecimalBound(g);
      Pow10Monotone(|g|, 18);
      Pow10Of18();
      NoWrap(Decimal(g));
    }
  }

  lemma {:induction false} Pow10Monotone(i: nat, j: nat)
    requires i <= j
    ensures Pow10(i) <= Pow10(j)
  {
    if i < j {
      Pow10Monotone(i, j - 1);
    }
  }

  lemma Pow10Of18()
    ensures Pow10(18) == 1_000_000_000_000_000_000
  {
    assert Pow10(3) == 1000 && Pow10(6) == 1_000_000 && Pow10(9) == 1_000_000_000;
    assert Pow10(12) == 1_000_000_000_000 && Pow10(15) == 1_000_000_000_000_000;
  }

  // ---------- What the parser computes ----------

  /** A group that contributes a word: a multiple of 11 whose eleventh part is at most 65535. */
  predicate ValidGroup(g: string)
  {
    AllDigits(g) && Accumulated(g) % 11 == 0 && Accumulated(g) / 11 <= 0xffff
  }

  /** The two bytes of a group's word. */
  function WordBytes(g: string): (b: seq<byte>)
    requires ValidGroup(g)
    ensures |b| == 2
  {
    LEBytes(Accumulated(g) / 11 % 0x1_0000, 2)
  }

  function AllWords(groups: seq<string>): (b: seq<byte>)
    requires forall g | g in groups :: ValidGroup(g)
    ensures |b| == 2 * |groups|
  {
    if groups == [] then [] else AllWords(groups[..|groups| - 1]) + WordBytes(groups[|groups| - 1])
  }

  /** How many groups at the start are valid. */
  function ValidPrefix(groups: seq<string>): (n: nat)
    ensures n <= |groups|
    ensures forall i | 0 <= i < n :: ValidGroup(groups[i])
    ensures n < |groups| ==> !ValidGroup(groups[n])
  {
    if groups == [] || !ValidGroup(groups[0]) then 0 else 1 + ValidPrefix(groups[1..])
  }

  /** The key derived from any string: the words of the longest valid prefix of groups and zeros after
      them. The first group that is not valid is an error if it holds anything but digits; if it holds
      only digits the rest of the string is ignored; a ninth valid group faults. */
  function Derived(s: string): Outcome<seq<byte>>
  {
    var groups := Split(s);
    var n := ValidPrefix(groups);
    if n > 8 then Panic
    else if n < |groups| && !AllDigits(groups[n]) then Error
    else Done(AllWords(groups[..n]) + Zeros(16 - 2 * n))
  }

  /** Reads a group's digits; fails on anything else. */
  method ReadGroup(group: string) returns (r: Result<int>)
    ensures r == if AllDigits(group) then Success(Accumulated(group)) else Failure
  {
    hide Wrap;
    var value := 0;
    var i := 0;
    while i < |group|
      invariant 0 <= i <= |group|
      invariant AllDigits(group[..i]) && value == Accumulated(group[..i])
    {
      var cu := group[i];
      if cu < '0' || cu > '9' {
        assert cu in group;
        return Failure;
      }
      assert group[..i + 1][..i] == group[..i];
      value := Wrap(value * 10 + DigitValue(cu));
      i := i + 1;
    }
    assert group[..i] == group;
    return Success(value);
  }

  lemma NoWords(groups: seq<string>)
    ensures AllWords(groups[..0]) + Zeros(16) == Zeros(16) && forall k | 0 <= k < 16 :: Zeros(16)[k] == 0
    ensures |Zeros(16)| == 16
  {
  }

  /** Writing the next word over the first two of the zeros that follow the words so far. */
  lemma NextWord(groups: seq<string>, n: nat)
    requires n < |groups| && n < 8 && forall i | 0 <= i <= n :: ValidGroup(groups[i])
    ensures var key := AllWords(groups[..n]) + Zeros(16 - 2 * n);
            |key| == 16 &&
            Overlay(key, 2 * n, WordBytes(groups[n])) == AllWords(groups[..n + 1]) + Zeros(16 - 2 * (n + 1))
    ensures WordBytes(groups[n]) == LEBytes(Accumulated(groups[n]) / 11 % 0x1_0000, 2)
  {
    hide LEBytes, ValidGroup;
    var words, word := AllWords(groups[..n]), WordBytes(groups[n]);
    assert groups[..n + 1][..n] == groups[..n] && groups[..n + 1][n] == groups[n];
    assert AllWords(groups[..n + 1]) == words + word;
    assert Zeros(16 - 2 * n)[2..] == Zeros(16 - 2 * (n + 1));
  }

  method DeriveKeyFromRecoveryKey(key: string) returns (r: Outcome<seq<byte>>)
    ensures r == Derived(key)
  {
    hide ValidPrefix, Split, Accumulated, LEBytes, AllDigits, Overlay, Zeros, AllWords, WordBytes;
    var derivedKey := new byte[16](_ => 0);
    var groups := Split(key);
    ghost var n := ValidPrefix(groups);
    var groupId := 0;
    NoWords(groups);
    assert derivedKey[..] == Zeros(16);
    while groupId < |groups|
      invariant 0 <= groupId <= n && groupId <= 8
      invariant derivedKey[..] == AllWords(groups[..groupId]) + Zeros(16 - 2 * groupId)
    {
      var group := groups[groupId];
      var read := ReadGroup(group);
      if read.Failure? {
        return Error;
      }
      var value := read.value;
      if value % 11 != 0 || value / 11 > 0xffff {
        break;
      }
      assert ValidGroup(group);
      if groupId >= 8 {
        return Panic;
      }
      NextWord(groups, groupId);
      Copy(derivedKey, 2 * groupId, LEBytes(value / 11 % 0x1_0000, 2));
      groupId := groupId + 1;
    }
    return Done(derivedKey[..]);
  }

  // ---------- Printing ----------

  /** The last n decimal digits of a number. */
  function Digits(v: nat, n: nat): (g: string)
    ensures |g| == n && AllDigits(g)
  {
    if n == 0 then "" else Digits(v / 10, n - 1) + [DigitChar(v % 10)]
  }

  lemma {:induction false} DecimalOfDigits(v: nat, n: nat)
    requires v < Pow10(n)
    ensures Decimal(Digits(v, n)) == v
  {
    if n > 0 {
      DecimalOfDigits(v / 10, n - 1);
      var g := Digits(v, n);
      assert g[..n - 1] == Digits(v / 10, n - 1) && g[n - 1] == DigitChar(v % 10);
    }
  }

  /** A group as it is printed: a 16-bit word times 11, six digits. */
  function PrintGroup(word: seq<byte>): (g: string)
    requires |word| == 2
    ensures |g| == 6 && AllDigits(g)
  {
    Digits(LE(word) * 11, 6)
  }

  function PrintGroups(key: seq<byte>): (groups: seq<string>)
    requires |key| % 2 == 0
    ensures |groups| == |key| / 2 && forall g | g in groups :: AllDigits(g)
  {
    seq(|key| / 2, i requires 0 <= i < |key| / 2 => PrintGroup(key[2 * i..2 * i + 2]))
  }

  /** A key of 16 bytes as the 48 digits shown to the user. */
  function PrintKey(key: seq<byte>): string
    requires |key| == 16
  {
    Join(PrintGroups(key))
  }

  lemma GroupRoundTrip(word: seq<byte>)
    requires |word| == 2
    ensures ValidGroup(PrintGroup(word)) && WordBytes(PrintGroup(word)) == word
  {
    hide Val, ToByte, Digits, Decimal, Accumulated, LE, LEBytes;
    var w, g := LE(word), PrintGroup(word);
    LEBound(word);
    assert Pow256(2) == 0x1_0000;
    assert Pow10(3) == 1000 && Pow10(6) == 1_000_000;
    DecimalOfDigits(w * 11, 6);
    ShortGroupExact(g);
    BytesOfLE(word);
  }

  lemma {:induction false} WordsRoundTrip(key: seq<byte>, n: nat)
    requires |key| % 2 == 0 && 2 * n <= |key|
    ensures forall g | g in PrintGroups(key)[..n] :: ValidGroup(g)
    ensures AllWords(PrintGroups(key)[..n]) == key[..2 * n]
  {
    hide PrintGroup, WordBytes, ValidGroup;
    if n > 0 {
      WordsRoundTrip(key, n - 1);
      var groups := PrintGroups(key);
      GroupRoundTrip(key[2 * (n - 1)..2 * n]);
      assert groups[..n][..n - 1] == groups[..n - 1] && groups[..n][n - 1] == groups[n - 1];
      assert groups[..n] == groups[..n - 1] + [groups[n - 1]];
      SplitSlice(key, 0, 2 * (n - 1), 2 * n);
    }
  }

  /** Round trip: parsing the printed form of any 16-byte key gives the key. */
  lemma KeyRoundTrip(key: seq<byte>)
    requires |key| == 16
    ensures Derived(PrintKey(key)) == Done(key)
  {
    hide PrintGroup, WordBytes, Split, Join, ValidGroup;
    var groups := PrintGroups(key);
    forall g | g in groups
      ensures '-' !in g
    {
    }
    SplitJoin(groups);
    WordsRoundTrip(key, 8);
    assert groups[..8] == groups && key[..16] == key;
    var n := ValidPrefix(groups);
    forall i | 0 <= i < 8
      ensures ValidGroup(groups[i])
    {
      assert groups[i] in groups;
    }
    assert n == 8;
    assert Zeros(0) == [] && key + [] == key;
  }

  /** For eight groups of at most 18 digits the valid ones are the multiples of 11 up to 11 * 65535. */
  lemma ShortGroupValid(g: string)
    requires AllDigits(g) && |g| <= 18
    ensures ValidGroup(g) <==> exists w: nat :: w <= 0xffff && Decimal(g) == 11 * w
  {
    ShortGroupExact(g);
    if ValidGroup(g) {
      assert Decimal(g) == 11 * (Decimal(g) / 11);
    }
  }

  // ---------- Valid groups, and what follows them ----------

  lemma {:induction false} ValidPrefixIs(groups: seq<string>, n: nat)
    requires n <= |groups| && forall i | 0 <= i < n :: ValidGroup(groups[i])
    requires n < |groups| ==> !ValidGroup(groups[n])
    ensures ValidPrefix(groups) == n
    decreases n
  {
    hide ValidGroup;
    if n > 0 {
      assert forall i | 0 <= i < n - 1 :: groups[1..][i] == groups[i + 1];
      ValidPrefixIs(groups[1..], n - 1);
    }
  }

  lemma {:induction false} WordsAt(groups: seq<string>, i: nat)
    requires i < |groups| && forall g | g in groups :: ValidGroup(g)
    ensures AllWords(groups)[2 * i..2 * i + 2] == WordBytes(groups[i])
    decreases |groups|
  {
    hide ValidGroup, WordBytes;
    var n := |groups| - 1;
    var init := AllWords(groups[..n]);
    assert AllWords(groups) == init + WordBytes(groups[n]);
    if i < n {
      WordsAt(groups[..n], i);
      assert AllWords(groups)[2 * i..2 * i + 2] == init[2 * i..2 * i + 2];
    }
  }

  lemma ShortWord(g: string, w: nat)
    requires AllDigits(g) && |g| <= 18 && w <= 0xffff && Decimal(g) == 11 * w
    ensures ValidGroup(g) && LE(WordBytes(g)) == w
  {
    hide LEBytes, LE, Decimal, Accumulated;
    ShortGroupExact(g);
    assert Pow256(2) == 0x1_0000;
    LEOfBytes(w, 2);
  }

  /** A key whose little-endian words are the given ones, with zeros behind them. */
  predicate HoldsWords(key: seq<byte>, words: seq<nat>)
  {
    |key| == 16 && 2 * |words| <= 16 &&
    (forall i | 0 <= i < |words| :: LE(key[2 * i..2 * i + 2]) == words[i]) &&
    forall k | 2 * |words| <= k < 16 :: key[k] == 0
  }

  /** Up to eight groups of at most 18 digits that are 11 times a 16-bit number give those numbers, with zeros behind
      them: if they are all groups, or if the next has only digits too and is no such number. If the next has anything
      but digits, it is an error. */
  lemma WordsAndZeros(groups: seq<string>, words: seq<nat>)
    requires groups != [] && |words| <= |groups| && |words| <= 8 && forall g | g in groups :: '-' !in g
    requires forall i | 0 <= i < |words| ::
               AllDigits(groups[i]) && |groups[i]| <= 18 && words[i] <= 0xffff && Decimal(groups[i]) == 11 * words[i]
    ensures var r := Derived(Join(groups));
            if |words| == |groups| then r.Done? && HoldsWords(r.value, words)
            else
              var next := groups[|words|];
              (!AllDigits(next) ==> r == Error) &&
              (AllDigits(next) && |next| <= 18 && (forall w: nat | w <= 0xffff :: Decimal(next) != 11 * w) ==>
                 r.Done? && HoldsWords(r.value, words))
  {
    hide Split, Join, ValidGroup, LE, LEBytes, AllDigits, Decimal, Accumulated;
    SplitJoin(groups);
    var n := |words|;
    forall i | 0 <= i < n
      ensures ValidGroup(groups[i]) && LE(WordBytes(groups[i])) == words[i]
    {
      ShortWord(groups[i], words[i]);
    }
    if n == |groups| {
      ValidPrefixIs(groups, n);
      WordsThenZeros(groups[..n], words);
    } else {
      var next := groups[n];
      if !AllDigits(next) {
        NoDigitsInvalid(next);
        ValidPrefixIs(groups, n);
      } else if |next| <= 18 && forall w: nat | w <= 0xffff :: Decimal(next) != 11 * w {
        ShortGroupValid(next);
        ValidPrefixIs(groups, n);
        WordsThenZeros(groups[..n], words);
      }
    }
  }

  /** A ninth such group faults. */
  lemma NineGroups(groups: seq<string>, words: seq<nat>)
    requires |groups| >= |words| == 9 && forall g | g in groups :: '-' !in g
    requires forall i | 0 <= i < 9 ::
               AllDigits(groups[i]) && |groups[i]| <= 18 && words[i] <= 0xffff && Decimal(groups[i]) == 11 * words[i]
    ensures Derived(Join(groups)) == Panic
  {
    hide Split, Join, ValidGroup, LE, LEBytes, AllDigits, Decimal, Accumulated;
    SplitJoin(groups);
    forall i | 0 <= i < 9
      ensures ValidGroup(groups[i])
    {
      ShortWord(groups[i], words[i]);
    }
    ValidPrefixAtLeast(groups, 9);
  }

  lemma {:induction false} ValidPrefixAtLeast(groups: seq<string>, n: nat)
    requires n <= |groups| && forall i | 0 <= i < n :: ValidGroup(groups[i])
    ensures ValidPrefix(groups) >= n
    decreases n
  {
    hide ValidGroup;
    if n > 0 {
      assert forall i | 0 <= i < n - 1 :: groups[1..][i] == groups[i + 1];
      ValidPrefixAtLeast(groups[1..], n - 1);
    }
  }

  lemma NoDigitsInvalid(g: string)
    ensures !AllDigits(g) ==> !ValidGroup(g)
  {
  }

  lemma WordsThenZeros(groups: seq<string>, words: seq<nat>)
    requires |groups| == |words| <= 8 && forall g | g in groups :: ValidGroup(g)
    requires forall i | 0 <= i < |words| :: LE(WordBytes(groups[i])) == words[i]
    ensures HoldsWords(AllWords(groups) + Zeros(16 - 2 * |groups|), words)
  {
    hide ValidGroup, WordBytes, LE, AllWords;
    var bytes := AllWords(groups);
    var key := bytes + Zeros(16 - 2 * |groups|);
    forall i | 0 <= i < |words|
      ensures LE(key[2 * i..2 * i + 2]) == words[i]
    {
      WordsAt(groups, i);
      assert key[2 * i..2 * i + 2] == bytes[2 * i..2 * i + 2];
    }
  }
}
