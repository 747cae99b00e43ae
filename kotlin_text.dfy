/** The Kotlin and JVM library behaviour that the application code relies on,
    written out: `substringBefore`/`substringAfter` with a one-character
    delimiter, `split(" ".toRegex(), limit)`, `String.toBoolean()`,
    `String.toInt()` (which is `java.lang.Integer.parseInt`), the decimal
    rendering of an `Int`, and the insertion order of `mapOf`. */
module KotlinText {
  import opened Wrappers

  const MinInt: int := -0x8000_0000
  const MaxInt: int := 0x7fff_ffff

  // ---------------------------------------------------------------------
  // Searching for a character
  // ---------------------------------------------------------------------

  /** The index of the first occurrence of `c` in `s`, if there is one. */
  function IndexOf(s: string, c: char): (r: Option<nat>)
    ensures r.Some? ==> r.value < |s| && s[r.value] == c
  {
    if |s| == 0 then None
    else if s[0] == c then Some(0)
    else match IndexOf(s[1..], c)
      case None => None
      case Some(k) => Some(k + 1)
  }

  /** The search misses only when `c` is absent, and what it finds is the
      first occurrence. */
  lemma {:induction false} IndexOfFirst(s: string, c: char)
    ensures IndexOf(s, c).None? <==> c !in s
    ensures IndexOf(s, c).Some? ==> c !in s[..IndexOf(s, c).value]
  {
    if |s| > 0 && s[0] != c {
      IndexOfFirst(s[1..], c);
      assert s == [s[0]] + s[1..];
      match IndexOf(s[1..], c)
      case None =>
      case Some(k) =>
        assert s[..k + 1] == [s[0]] + s[1..][..k];
    }
  }

  /** An occurrence with none before it is the one the search finds. */
  lemma IndexOfAt(s: string, c: char, k: nat)
    requires k < |s| && s[k] == c && c !in s[..k]
    ensures IndexOf(s, c) == Some(k)
  {
    IndexOfFirst(s, c);
    var j := IndexOf(s, c).value;
    assert forall i :: 0 <= i < k ==> s[i] != c by {
      forall i | 0 <= i < k ensures s[i] != c {
        assert s[..k][i] == s[i];
      }
    }
    assert forall i :: 0 <= i < j ==> s[i] != c by {
      forall i | 0 <= i < j ensures s[i] != c {
        assert s[..j][i] == s[i];
      }
    }
  }

  /** `s.substringBefore(c)`: the text before the first `c`, or all of `s`. */
  function SubstringBefore(s: string, c: char): (r: string)
    ensures r <= s
    ensures c !in s ==> r == s
  {
    IndexOfFirst(s, c);
    match IndexOf(s, c)
    case None => s
    case Some(k) => s[..k]
  }

  /** `s.substringAfter(c)`: the text after the first `c`, or all of `s`
      (Kotlin's default `missingDelimiterValue` is the string itself). */
  function SubstringAfter(s: string, c: char): (r: string)
    ensures |r| <= |s| && r == s[|s| - |r|..]
    ensures c !in s ==> r == s
  {
    IndexOfFirst(s, c);
    match IndexOf(s, c)
    case None => s
    case Some(k) => s[k + 1..]
  }

  /** Splitting at the first delimiter loses nothing: before, delimiter and
      after reassemble the string, and the part before holds no delimiter. */
  lemma SubstringsAtFirst(s: string, c: char)
    ensures c in s ==> s == SubstringBefore(s, c) + [c] + SubstringAfter(s, c)
    ensures c !in SubstringBefore(s, c)
  {
    IndexOfFirst(s, c);
    if c in s {
      var k := IndexOf(s, c).value;
      assert s == s[..k] + [s[k]] + s[k + 1..];
    }
  }

  /** Conversely, whatever follows the first delimiter is found again. */
  lemma SubstringsOfJoin(before: string, c: char, after: string)
    requires c !in before
    ensures SubstringBefore(before + [c] + after, c) == before
    ensures SubstringAfter(before + [c] + after, c) == after
  {
    var s := before + [c] + after;
    assert s[..|before|] == before;
    IndexOfAt(s, c, |before|);
    assert s[|before| + 1..] == after;
  }

  // ---------------------------------------------------------------------
  // split(" ".toRegex(), limit)
  // ---------------------------------------------------------------------

  /** Joining fields with single spaces, the inverse of `SplitSpaces`. */
  function JoinSpaces(fields: seq<string>): string
  {
    if |fields| == 0 then ""
    else if |fields| == 1 then fields[0]
    else fields[0] + " " + JoinSpaces(fields[1..])
  }

  /** `s.split(" ".toRegex(), limit)` for a positive `limit`: the string is
      cut at its first `limit - 1` spaces; empty fields are kept, and the last
      field holds the rest of the string, spaces included. */
  function SplitSpaces(s: string, limit: nat): (fields: seq<string>)
    requires limit > 0
    decreases |s|
  {
    if limit == 1 then [s]
    else match IndexOf(s, ' ')
      case None => [s]
      case Some(k) => [s[..k]] + SplitSpaces(s[k + 1..], limit - 1)
  }

  /** Joining a field in front of at least one more puts a space between. */
  lemma JoinSpacesCons(head: string, rest: seq<string>)
    requires |rest| > 0
    ensures JoinSpaces([head] + rest) == head + " " + JoinSpaces(rest)
  {
    assert ([head] + rest)[1..] == rest;
  }

  /** A string is the text before a position, the character there and the
      text after it. */
  lemma CutAt(s: string, k: nat)
    requires k < |s|
    ensures s == s[..k] + [s[k]] + s[k + 1..]
  {
  }

  /** Below the limit, the string is cut at its first space. */
  lemma SplitSpacesAtFirst(s: string, limit: nat, k: nat)
    requires limit > 1 && IndexOf(s, ' ') == Some(k)
    ensures SplitSpaces(s, limit) == [s[..k]] + SplitSpaces(s[k + 1..], limit - 1)
  {
  }

  /** There is at least one field, and at most `limit`. */
  lemma {:induction false} SplitSpacesBounds(s: string, limit: nat)
    requires limit > 0
    ensures 1 <= |SplitSpaces(s, limit)| <= limit
    decreases |s|
  {
    if limit > 1 {
      match IndexOf(s, ' ')
      case None =>
      case Some(k) =>
        SplitSpacesBounds(s[k + 1..], limit - 1);
    }
  }

  /** Splitting loses nothing: the fields joined with spaces are the string. */
  lemma {:induction false} SplitSpacesJoin(s: string, limit: nat)
    requires limit > 0
    ensures JoinSpaces(SplitSpaces(s, limit)) == s
    decreases |s|
  {
    if limit > 1 {
      match IndexOf(s, ' ')
      case None =>
      case Some(k) =>
        var head, tail := s[..k], s[k + 1..];
        var rest := SplitSpaces(tail, limit - 1);
        calc {
          JoinSpaces(SplitSpaces(s, limit));
          { SplitSpacesAtFirst(s, limit, k); }
          JoinSpaces([head] + rest);
          { SplitSpacesBounds(tail, limit - 1); JoinSpacesCons(head, rest); }
          head + " " + JoinSpaces(rest);
          { SplitSpacesJoin(tail, limit - 1); }
          head + " " + tail;
          { CutAt(s, k); }
          s;
        }
    }
  }

  /** Every field but the last is free of spaces, and so is the last when
      the limit was not reached. */
  lemma {:induction false} SplitSpacesFields(s: string, limit: nat)
    requires limit > 0
    ensures var fields := SplitSpaces(s, limit);
      && 1 <= |fields| <= limit
      && (forall i :: 0 <= i < |fields| - 1 ==> ' ' !in fields[i])
      && (|fields| < limit ==> ' ' !in fields[|fields| - 1])
    decreases |s|
  {
    SplitSpacesBounds(s, limit);
    if limit > 1 {
      IndexOfFirst(s, ' ');
      match IndexOf(s, ' ')
      case None =>
      case Some(k) =>
        var rest := SplitSpaces(s[k + 1..], limit - 1);
        SplitSpacesFields(s[k + 1..], limit - 1);
        SplitSpacesAtFirst(s, limit, k);
        var fields := [s[..k]] + rest;
        assert forall i :: 0 < i < |fields| ==> fields[i] == rest[i - 1];
    }
  }

  /** A first field without spaces is cut off at the space after it. */
  lemma SplitSpacesFirst(first: string, rest: string, limit: nat)
    requires ' ' !in first && limit > 1
    ensures SplitSpaces(first + " " + rest, limit) == [first] + SplitSpaces(rest, limit - 1)
  {
    var s := first + " " + rest;
    assert s[..|first|] == first;
    IndexOfAt(s, ' ', |first|);
    assert s[|first| + 1..] == rest;
    SplitSpacesAtFirst(s, limit, |first|);
  }

  /** The number of times `c` occurs in `s`. */
  function Occurrences(s: string, c: char): nat
  {
    if |s| == 0 then 0 else (if s[0] == c then 1 else 0) + Occurrences(s[1..], c)
  }

  lemma {:induction false} OccurrencesConcat(a: string, b: string, c: char)
    ensures Occurrences(a + b, c) == Occurrences(a, c) + Occurrences(b, c)
  {
    if |a| == 0 {
      assert a + b == b;
    } else {
      assert (a + b)[1..] == a[1..] + b;
      OccurrencesConcat(a[1..], b, c);
    }
  }

  lemma {:induction false} NoOccurrences(s: string, c: char)
    requires c !in s
    ensures Occurrences(s, c) == 0
  {
    if |s| > 0 {
      assert c !in s[1..] by {
        forall i | 0 <= i < |s[1..]| ensures s[1..][i] != c {
          assert s[1..][i] == s[i + 1];
        }
      }
      NoOccurrences(s[1..], c);
    }
  }

  lemma OccurrencesAfterFirst(s: string, c: char, k: nat)
    requires k < |s| && s[k] == c && c !in s[..k]
    ensures Occurrences(s, c) == 1 + Occurrences(s[k + 1..], c)
  {
    var rest := s[k + 1..];
    assert s == s[..k] + ([c] + rest);
    OccurrencesConcat(s[..k], [c] + rest, c);
    NoOccurrences(s[..k], c);
    assert ([c] + rest)[1..] == rest;
  }

  /** `split` with a limit yields one field more than there are spaces, but
      never more than `limit` fields. */
  lemma {:induction false} SplitSpacesCount(s: string, limit: nat)
    requires limit > 0
    ensures |SplitSpaces(s, limit)| == if Occurrences(s, ' ') < limit then Occurrences(s, ' ') + 1 else limit
    decreases |s|
  {
    if limit == 1 {
      assert SplitSpaces(s, limit) == [s];
    } else {
      IndexOfFirst(s, ' ');
      match IndexOf(s, ' ')
      case None =>
        NoOccurrences(s, ' ');
        assert SplitSpaces(s, limit) == [s];
      case Some(k) =>
        var rest := s[k + 1..];
        assert |SplitSpaces(s, limit)| == 1 + |SplitSpaces(rest, limit - 1)|;
        OccurrencesAfterFirst(s, ' ', k);
        SplitSpacesCount(rest, limit - 1);
        var n := Occurrences(rest, ' ');
        assert |SplitSpaces(rest, limit - 1)| == if n < limit - 1 then n + 1 else limit - 1;
    }
  }

  // ---------------------------------------------------------------------
  // String.toBoolean()
  // ---------------------------------------------------------------------

  function LowerAscii(c: char): char
  {
    if 'A' <= c <= 'Z' then (c as int + 32) as char else c
  }

  /** `s.toBoolean()`: `s.equals("true", ignoreCase = true)`. */
  function ToBoolean(s: string): bool
  {
    |s| == 4 && LowerAscii(s[0]) == 't' && LowerAscii(s[1]) == 'r' && LowerAscii(s[2]) == 'u' && LowerAscii(s[3]) == 'e'
  }

  /** Exactly the four-letter spellings of "true" in any mix of case are true. */
  lemma ToBooleanIgnoresCase(s: string)
    ensures ToBoolean(s) <==> |s| == 4 && forall i :: 0 <= i < 4 ==> s[i] == "true"[i] || s[i] == "TRUE"[i]
  {
    if |s| == 4 {
      assert "true"[0] == 't' && "TRUE"[0] == 'T' && "true"[1] == 'r' && "TRUE"[1] == 'R';
      assert "true"[2] == 'u' && "TRUE"[2] == 'U' && "true"[3] == 'e' && "TRUE"[3] == 'E';
    }
  }

  // ---------------------------------------------------------------------
  // Decimal numbers: Int.toString() and Integer.parseInt
  // ---------------------------------------------------------------------

  predicate IsDigit(c: char) { '0' <= c <= '9' }

  predicate AllDigits(s: string) { forall i :: 0 <= i < |s| ==> IsDigit(s[i]) }

  /** A digit string as `Int.toString()` writes it: no superfluous zero. */
  predicate Canonical(s: string)
  {
    |s| > 0 && AllDigits(s) && (s[0] == '0' ==> |s| == 1)
  }

  function DigitChar(d: nat): (c: char)
    requires d < 10
    ensures IsDigit(c) && c as int - '0' as int == d
  {
    ('0' as int + d) as char
  }

  /** The value of a string of decimal digits, most significant first. */
  function DigitsValue(s: string): nat
    requires AllDigits(s)
  {
    if |s| == 0 then 0
    else DigitsValue(s[..|s| - 1]) * 10 + (s[|s| - 1] as int - '0' as int)
  }

  /** The decimal digits of a natural number. */
  function NatToString(n: nat): (s: string)
    ensures Canonical(s)
  {
    if n < 10 then [DigitChar(n)]
    else
      var p := NatToString(n / 10);
      assert p[0] != '0';
      p + [DigitChar(n % 10)]
  }

  /** `n.toString()` for an `Int` (string templates use it too). */
  function IntToString(n: int): string
  {
    if n < 0 then "-" + NatToString(-n) else NatToString(n)
  }

  /** `s.toInt()`, which is `Integer.parseInt(s, 10)`: an optional `-` or
      `+`, then at least one digit, and a value that fits in 32 bits;
      anything else is a `NumberFormatException` (here `None`). */
  function ParseInt(s: string): (r: Option<int>)
    ensures r.Some? ==> |s| > 0 && MinInt <= r.value <= MaxInt
    ensures r.Some? && AllDigits(s) ==> r.value == DigitsValue(s)
    ensures r.Some? && !AllDigits(s) ==> |s| > 1 && (s[0] == '-' || s[0] == '+') && AllDigits(s[1..])
    ensures r.Some? && !AllDigits(s) ==>
      r.value == (if s[0] == '-' then 0 - (DigitsValue(s[1..]) as int) else DigitsValue(s[1..]))
    ensures |s| > 0 && AllDigits(s) && DigitsValue(s) <= MaxInt ==> r == Some(DigitsValue(s))
    ensures |s| > 1 && s[0] == '+' && AllDigits(s[1..]) && DigitsValue(s[1..]) <= MaxInt ==>
      r == Some(DigitsValue(s[1..]))
    ensures |s| > 1 && s[0] == '-' && AllDigits(s[1..]) && DigitsValue(s[1..]) <= -MinInt ==>
      r == Some(0 - (DigitsValue(s[1..]) as int))
  {
    if |s| == 0 then None
    else if s[0] == '-' || s[0] == '+' then
      if |s| == 1 || !AllDigits(s[1..]) then None
      else
        var v: int := if s[0] == '-' then 0 - (DigitsValue(s[1..]) as int) else DigitsValue(s[1..]);
        if MinInt <= v <= MaxInt then Some(v) else None
    else if !AllDigits(s) then None
    else if DigitsValue(s) <= MaxInt then Some(DigitsValue(s)) else None
  }

  lemma {:induction false} DigitsOfNat(n: nat)
    ensures DigitsValue(NatToString(n)) == n
  {
    if n >= 10 {
      DigitsOfNat(n / 10);
      var s := NatToString(n);
      assert s[..|s| - 1] == NatToString(n / 10);
    }
  }

  /** A canonical digit string of length `k + 1` is worth at least 10^k. */
  lemma {:induction false} CanonicalAtLeast(s: string)
    requires Canonical(s) && |s| >= 2
    ensures DigitsValue(s) >= 10
  {
    var p := s[..|s| - 1];
    if |p| >= 2 {
      CanonicalAtLeast(p);
    } else {
      assert p[0] == s[0] && s[0] != '0';
    }
  }

  lemma {:induction false} NatOfDigits(s: string)
    requires Canonical(s)
    ensures NatToString(DigitsValue(s)) == s
  {
    if |s| == 1 {
      assert [DigitChar(DigitsValue(s))] == s;
    } else {
      var p := s[..|s| - 1];
      assert p[0] == s[0];
      assert Canonical(p);
      NatOfDigits(p);
      CanonicalAtLeast(s);
      var d := s[|s| - 1] as int - '0' as int;
      assert DigitsValue(s) / 10 == DigitsValue(p) && DigitsValue(s) % 10 == d;
      assert s == p + [s[|s| - 1]];
    }
  }

  /** Parsing undoes rendering for every value an `Int` can hold. */
  lemma ParseIntToString(n: int)
    requires MinInt <= n <= MaxInt
    ensures ParseInt(IntToString(n)) == Some(n)
  {
    if n < 0 {
      DigitsOfNat(-n);
      assert IntToString(n)[1..] == NatToString(-n);
    } else {
      DigitsOfNat(n);
    }
  }

  /** Rendering undoes parsing exactly when the text was canonical. */
  lemma ToStringParseInt(s: string)
    requires Canonical(s) && ParseInt(s).Some?
    ensures ParseInt(s).value >= 0 && IntToString(ParseInt(s).value) == s
  {
    NatOfDigits(s);
  }

  // ---------------------------------------------------------------------
  // mapOf(...).entries.toList()
  // ---------------------------------------------------------------------

  function Keys<K(==), V>(pairs: seq<(K, V)>): seq<K>
  {
    seq(|pairs|, i requires 0 <= i < |pairs| => pairs[i].0)
  }

  /** The entries of a `LinkedHashMap` built by putting `pairs` in order: a
      new key goes last, a repeated key keeps its place and takes the later
      value. */
  function LinkedEntries<K(==), V>(pairs: seq<(K, V)>): seq<(K, V)>
    decreases |pairs|
  {
    if |pairs| == 0 then []
    else
      var prior := LinkedEntries(pairs[..|pairs| - 1]);
      var (k, v) := pairs[|pairs| - 1];
      if k in Keys(prior) then
        seq(|prior|, i requires 0 <= i < |prior| => if prior[i].0 == k then (k, v) else prior[i])
      else prior + [(k, v)]
  }

  predicate DistinctKeys<K(==), V>(pairs: seq<(K, V)>)
  {
    forall i, j :: 0 <= i < j < |pairs| ==> pairs[i].0 != pairs[j].0
  }

  /** With distinct keys, iterating the map gives back the declaration order. */
  lemma {:induction false} LinkedEntriesInOrder<K, V>(pairs: seq<(K, V)>)
    requires DistinctKeys(pairs)
    ensures LinkedEntries(pairs) == pairs
  {
    if |pairs| > 0 {
      var init := pairs[..|pairs| - 1];
      LinkedEntriesInOrder(init);
      var k := pairs[|pairs| - 1].0;
      assert k !in Keys(init) by {
        forall i | 0 <= i < |init| ensures Keys(init)[i] != k {
          assert pairs[i].0 != pairs[|pairs| - 1].0;
        }
      }
      assert init + [pairs[|pairs| - 1]] == pairs;
    }
  }
}
