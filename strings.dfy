/**
 * The PHP string primitives the data-access layer relies on:
 * `strpos(...) !== false`, `str_replace` of one character, `substr($s, 0, -1)`,
 * a comma-separated list and decimal integer text.
 */
module Strings {

  /** `sub` stands in `s` starting at position `i`. */
  predicate OccursAt(s: string, sub: string, i: nat)
  {
    i + |sub| <= |s| && s[i..i + |sub|] == sub
  }

  /** `strpos(s, sub) !== false`: `sub` occurs in `s` as a contiguous block. */
  predicate Contains(s: string, sub: string)
  {
    exists i: nat :: i <= |s| && OccursAt(s, sub, i)
  }

  /** A block found at position `i` is found by `Contains`. */
  lemma ContainsAt(s: string, sub: string, i: nat)
    requires OccursAt(s, sub, i)
    ensures Contains(s, sub)
  {
  }

  /** A block with a character that `s` lacks does not occur in `s`. */
  lemma NotContainsChar(s: string, sub: string, k: nat)
    requires k < |sub| && sub[k] !in s
    ensures !Contains(s, sub)
  {
    forall i: nat ensures !OccursAt(s, sub, i) {
      if i + |sub| <= |s| {
        assert s[i..i + |sub|][k] == s[i + k];
      }
    }
  }

  /** `str_replace(c, "", s)` for a single character `c`. */
  function RemoveChar(s: string, c: char): (r: string)
    ensures |r| <= |s|
    ensures forall x :: x in r <==> x in s && x != c
  {
    if s == [] then [] else (if s[0] == c then [] else [s[0]]) + RemoveChar(s[1..], c)
  }

  /** Every `c` is removed and every other character is kept as often as it occurs. */
  lemma {:induction false} RemoveCharCounts(s: string, c: char)
    ensures multiset(RemoveChar(s, c)) == multiset(s)[c := 0]
  {
    if s != [] {
      RemoveCharCounts(s[1..], c);
      assert s == [s[0]] + s[1..];
    }
  }

  /** Removing works piece by piece, so the other characters keep their order. */
  lemma {:induction false} RemoveCharConcat(a: string, b: string, c: char)
    ensures RemoveChar(a + b, c) == RemoveChar(a, c) + RemoveChar(b, c)
  {
    if a != [] {
      assert (a + b)[1..] == a[1..] + b;
      RemoveCharConcat(a[1..], b, c);
    } else {
      assert a + b == b;
    }
  }

  /** One character is dropped if it is `c` and kept otherwise. */
  lemma RemoveCharSingle(x: char, c: char)
    ensures RemoveChar([x], c) == if x == c then [] else [x]
  {
    assert [x][1..] == [];
  }

  /** Between two pieces without `c`, one `c` is dropped and the pieces are joined. */
  lemma RemoveCharDropsSeparator(a: string, b: string, c: char)
    requires c !in a && c !in b
    ensures RemoveChar(a + [c] + b, c) == a + b
  {
    RemoveCharConcat(a + [c], b, c);
    RemoveCharConcat(a, [c], c);
    RemoveCharSingle(c, c);
    RemoveCharAbsent(a, c);
    RemoveCharAbsent(b, c);
    assert RemoveChar(a + [c], c) == a;
  }

  /** A string without `c` is left as it is. */
  lemma {:induction false} RemoveCharAbsent(s: string, c: char)
    requires c !in s
    ensures RemoveChar(s, c) == s
  {
    if s != [] {
      assert c !in s[1..];
      RemoveCharAbsent(s[1..], c);
    }
  }

  /** `substr(s, 0, -1)`: everything but the last character ("" stays ""). */
  function DropLast(s: string): string
  {
    if |s| == 0 then "" else s[..|s| - 1]
  }

  /** `implode(",", xs)`: the items separated by commas, with no comma after the last. */
  function Join(xs: seq<string>): string
  {
    if |xs| == 0 then ""
    else if |xs| == 1 then xs[0]
    else Join(xs[..|xs| - 1]) + "," + xs[|xs| - 1]
  }

  /** What a loop produces that appends `item + ","` for every item. */
  function Terminated(xs: seq<string>): string
  {
    if |xs| == 0 then "" else Terminated(xs[..|xs| - 1]) + xs[|xs| - 1] + ","
  }

  /** Trimming the trailing comma of the accumulated text leaves exactly the comma-joined list. */
  lemma {:induction false} TrimmedIsJoin(xs: seq<string>)
    ensures DropLast(Terminated(xs)) == Join(xs)
  {
    if |xs| > 0 {
      var init, last := xs[..|xs| - 1], xs[|xs| - 1];
      var t := Terminated(init) + last + ",";
      assert Terminated(xs) == t;
      assert DropLast(t) == Terminated(init) + last;
      if |init| == 0 {
        assert Join(xs) == last;
      } else {
        TrimmedIsJoin(init);
        TerminatedEndsWithComma(init);
        assert Terminated(init) == DropLast(Terminated(init)) + ",";
        assert init[..|init| - 1] == xs[..|xs| - 2];
      }
    }
  }

  lemma TerminatedEndsWithComma(xs: seq<string>)
    requires |xs| > 0
    ensures |Terminated(xs)| > 0 && Terminated(xs)[|Terminated(xs)| - 1] == ','
  {
  }

  /** Cuts a string at every comma; the inverse of `Join` on comma-free, non-empty lists. */
  function Split(s: string): (r: seq<string>)
    ensures |r| > 0
  {
    if |s| == 0 then [""]
    else if s[|s| - 1] == ',' then Split(s[..|s| - 1]) + [""]
    else
      var p := Split(s[..|s| - 1]);
      p[..|p| - 1] + [p[|p| - 1] + [s[|s| - 1]]]
  }

  /** A comma followed by comma-free text adds exactly one last item. */
  lemma {:induction false} SplitAppend(a: string, b: string)
    requires ',' !in b
    ensures Split(a + "," + b) == Split(a) + [b]
    decreases |b|
  {
    if |b| == 0 {
      assert (a + "," + b)[..|a + "," + b| - 1] == a;
    } else {
      var s := a + "," + b;
      var b' := b[..|b| - 1];
      assert s[..|s| - 1] == a + "," + b';
      assert s[|s| - 1] == b[|b| - 1];
      SplitAppend(a, b');
      assert b' + [b[|b| - 1]] == b;
    }
  }

  /** Two comma-free pieces joined by a comma split back into the two pieces. */
  lemma SplitPair(a: string, b: string)
    requires ',' !in a && ',' !in b
    ensures Split(a + "," + b) == [a, b]
  {
    SplitSingle(a);
    SplitAppend(a, b);
  }

  /** Comma-free text is a single item. */
  lemma {:induction false} SplitSingle(b: string)
    requires ',' !in b
    ensures Split(b) == [b]
    decreases |b|
  {
    if |b| > 0 {
      var b' := b[..|b| - 1];
      SplitSingle(b');
      assert b' + [b[|b| - 1]] == b;
    }
  }

  /** The comma-joined list reads back as the same items, in the same order. */
  lemma {:induction false} SplitJoin(xs: seq<string>)
    requires |xs| > 0
    requires forall i :: 0 <= i < |xs| ==> ',' !in xs[i]
    ensures Split(Join(xs)) == xs
  {
    if |xs| == 1 {
      SplitSingle(xs[0]);
    } else {
      var init := xs[..|xs| - 1];
      SplitAppend(Join(init), xs[|xs| - 1]);
      SplitJoin(init);
    }
  }

  function DigitChar(d: nat): char
    requires d < 10
  {
    "0123456789"[d]
  }

  /** Decimal text of a natural number, most significant digit first. */
  function NatToString(n: nat): (s: string)
    ensures |s| > 0
    ensures forall k :: 0 <= k < |s| ==> '0' <= s[k] <= '9'
  {
    if n < 10 then [DigitChar(n)] else NatToString(n / 10) + [DigitChar(n % 10)]
  }

  /** PHP's string conversion of an integer, used when a number is concatenated into SQL. */
  function IntToString(i: int): string
  {
    if i < 0 then "-" + NatToString(-i) else NatToString(i)
  }

  function ParseNat(s: string): nat
    requires forall k :: 0 <= k < |s| ==> '0' <= s[k] <= '9'
  {
    if |s| == 0 then 0 else ParseNat(s[..|s| - 1]) * 10 + (s[|s| - 1] - '0') as nat
  }

  function ParseInt(s: string): int
    requires IsDecimalText(s)
  {
    if s[0] == '-' then 0 - ParseNat(s[1..]) as int else ParseNat(s)
  }

  lemma {:induction false} ParseNatToString(n: nat)
    ensures ParseNat(NatToString(n)) == n
  {
    if n >= 10 {
      var s := NatToString(n);
      assert s[..|s| - 1] == NatToString(n / 10);
      ParseNatToString(n / 10);
    }
  }

  /** Decimal text is well formed: an optional minus sign, then at least one digit and digits only. */
  predicate IsDecimalText(s: string)
  {
    |s| > 0 && (s[0] == '-' || '0' <= s[0] <= '9') && (s[0] == '-' ==> |s| > 1) &&
    forall k :: 1 <= k < |s| ==> '0' <= s[k] <= '9'
  }

  /** The decimal text of an integer reads back as the same integer. */
  lemma IntToStringRoundTrip(i: int)
    ensures IsDecimalText(IntToString(i))
    ensures ParseInt(IntToString(i)) == i
  {
    if i < 0 {
      NegativeRoundTrip(i);
    } else {
      NonNegativeRoundTrip(i);
    }
  }

  lemma NegativeRoundTrip(i: int)
    requires i < 0
    ensures IsDecimalText(IntToString(i))
    ensures ParseInt(IntToString(i)) == i
  {
    var n: nat := -i;
    var digits := NatToString(n);
    var s := IntToString(i);
    assert s == "-" + digits;
    assert s[0] == '-' && s[1..] == digits;
    assert forall k :: 1 <= k < |s| ==> s[k] == digits[k - 1];
    ParseNatToString(n);
  }

  lemma NonNegativeRoundTrip(i: int)
    requires i >= 0
    ensures IsDecimalText(IntToString(i))
    ensures ParseInt(IntToString(i)) == i
  {
    var s := NatToString(i);
    assert IntToString(i) == s;
    assert '0' <= s[0] <= '9';
    ParseNatToString(i);
  }

  /** The decimal text of an integer never contains a decimal point. */
  lemma IntToStringHasNoDot(i: int)
    ensures '.' !in IntToString(i)
  {
  }
}
