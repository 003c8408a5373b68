/**
 * The string helpers the server takes from Go's `strings` and `fmt` packages:
 * Split, Join, SplitN with a limit of 2 (here CutFirst), TrimSpace, ToLower
 * and the `%d` formatting of an integer. Characters are those of a Dafny
 * `string`; whitespace and case are the ASCII ones.
 */
module Text {
  import opened Wrappers

  /** The line separator of HTTP/1.1 framing. */
  const CRLF: string := "\r\n"

  // ---------------------------------------------------------------------------
  // Split and Join
  // ---------------------------------------------------------------------------

  /** `sep` occurs in `s` starting at index `i`. */
  predicate SepAt(s: string, i: nat, sep: string) {
    i + |sep| <= |s| && s[i..i + |sep|] == sep
  }

  /** No occurrence of `sep` starts anywhere in `s`. */
  predicate SepFree(s: string, sep: string) {
    forall i :: 0 <= i < |s| ==> !SepAt(s, i, sep)
  }

  /**
   * strings.Split for a non-empty separator: `s` is cut at every occurrence of
   * `sep`, found left to right without overlap. Like Go's, the result always
   * holds at least one element, and an empty `s` gives `[""]`.
   */
  function Split(s: string, sep: string): (parts: seq<string>)
    requires sep != []
    ensures |parts| >= 1
    decreases |s|
  {
    if |s| < |sep| then [s]
    else if s[..|sep|] == sep then [""] + Split(s[|sep|..], sep)
    else
      var rest := Split(s[1..], sep);
      [[s[0]] + rest[0]] + rest[1..]
  }

  /** strings.Join: the parts with `sep` between consecutive ones. */
  function Join(parts: seq<string>, sep: string): string
    decreases |parts|
  {
    if |parts| == 0 then ""
    else if |parts| == 1 then parts[0]
    else parts[0] + sep + Join(parts[1..], sep)
  }

  /** Joining what Split cut gives back the original string. */
  lemma {:induction false} JoinSplit(s: string, sep: string)
    requires sep != []
    ensures Join(Split(s, sep), sep) == s
    decreases |s|
  {
    if |s| < |sep| {
    } else if s[..|sep|] == sep {
      var rest := Split(s[|sep|..], sep);
      JoinSplit(s[|sep|..], sep);
      assert Split(s, sep) == [""] + rest;
      assert ([""] + rest)[1..] == rest;
      assert s == sep + s[|sep|..];
    } else {
      var rest := Split(s[1..], sep);
      JoinSplit(s[1..], sep);
      assert Split(s, sep) == [[s[0]] + rest[0]] + rest[1..];
      JoinGrowFirst(s[0], rest, sep);
      assert s == [s[0]] + s[1..];
    }
  }

  /** Putting a character in front of the first part puts it in front of the join. */
  lemma JoinGrowFirst(c: char, parts: seq<string>, sep: string)
    requires parts != []
    ensures Join([[c] + parts[0]] + parts[1..], sep) == [c] + Join(parts, sep)
  {
    var grown := [[c] + parts[0]] + parts[1..];
    assert grown[1..] == parts[1..];
    if |parts| > 1 {
      assert Join(grown, sep) == ([c] + parts[0]) + sep + Join(parts[1..], sep);
    }
  }

  /** Joining a part in front of a non-empty list adds it and one separator. */
  lemma JoinCons(x: string, parts: seq<string>, sep: string)
    requires parts != []
    ensures Join([x] + parts, sep) == x + sep + Join(parts, sep)
  {
    assert ([x] + parts)[1..] == parts;
  }

  /** Joining two non-empty lists puts one separator between their joins. */
  lemma {:induction false} JoinAppend(a: seq<string>, b: seq<string>, sep: string)
    requires a != [] && b != []
    ensures Join(a + b, sep) == Join(a, sep) + sep + Join(b, sep)
    decreases |a|
  {
    if |a| == 1 {
      assert (a + b)[1..] == b;
    } else {
      JoinAppend(a[1..], b, sep);
      assert (a + b)[1..] == a[1..] + b;
    }
  }

  /**
   * When `sep` first occurs right after `a`, Split yields `a` and then the
   * pieces of what follows the separator.
   */
  lemma {:induction false} SplitAt(a: string, sep: string, rest: string)
    requires sep != []
    requires forall i :: 0 <= i < |a| ==> !SepAt(a + sep + rest, i, sep)
    ensures Split(a + sep + rest, sep) == [a] + Split(rest, sep)
    decreases |a|
  {
    var s := a + sep + rest;
    if a == [] {
      assert s[..|sep|] == sep;
      assert s[|sep|..] == rest;
    } else {
      assert !SepAt(s, 0, sep);
      assert s[..|sep|] != sep;
      assert s[1..] == a[1..] + sep + rest;
      forall i | 0 <= i < |a[1..]|
        ensures !SepAt(a[1..] + sep + rest, i, sep)
      {
        assert !SepAt(s, i + 1, sep);
        assert s[i + 1..i + 1 + |sep|] == s[1..][i..i + |sep|];
      }
      SplitAt(a[1..], sep, rest);
      assert a == [a[0]] + a[1..];
    }
  }

  /** A string without any occurrence of `sep` is not cut at all. */
  lemma {:induction false} SplitNone(a: string, sep: string)
    requires sep != []
    requires SepFree(a, sep)
    ensures Split(a, sep) == [a]
    decreases |a|
  {
    if |a| >= |sep| {
      assert !SepAt(a, 0, sep);
      assert a[..|sep|] != sep;
      forall i | 0 <= i < |a[1..]|
        ensures !SepAt(a[1..], i, sep)
      {
        assert !SepAt(a, i + 1, sep);
        if i + 1 + |sep| <= |a| {
          assert a[i + 1..i + 1 + |sep|] == a[1..][i..i + |sep|];
        }
      }
      SplitNone(a[1..], sep);
      assert a == [a[0]] + a[1..];
    }
  }

  /** SplitAt for a one-character separator that does not occur in `a`. */
  lemma SplitAtChar(a: string, c: char, rest: string)
    requires c !in a
    ensures Split(a + [c] + rest, [c]) == [a] + Split(rest, [c])
  {
    forall i | 0 <= i < |a|
      ensures !SepAt(a + [c] + rest, i, [c])
    {
      assert (a + [c] + rest)[i..i + 1] == [a[i]];
    }
    SplitAt(a, [c], rest);
  }

  /** SplitNone for a one-character separator. */
  lemma SplitNoChar(a: string, c: char)
    requires c !in a
    ensures Split(a, [c]) == [a]
  {
    forall i | 0 <= i < |a|
      ensures !SepAt(a, i, [c])
    {
      assert a[i..i + 1] == [a[i]];
    }
    SplitNone(a, [c]);
  }

  /** A string without CRLF can sit right before a CRLF: the first CRLF is the one after it. */
  lemma CrlfFreeBefore(a: string, rest: string)
    requires SepFree(a, CRLF)
    ensures forall i :: 0 <= i < |a| ==> !SepAt(a + CRLF + rest, i, CRLF)
  {
    forall i | 0 <= i < |a|
      ensures !SepAt(a + CRLF + rest, i, CRLF)
    {
      var s := a + CRLF + rest;
      if i + 1 < |a| {
        assert !SepAt(a, i, CRLF);
        assert s[i..i + 2] == a[i..i + 2];
      } else {
        assert s[i + 1] == '\r';
      }
    }
  }

  /** A string without a carriage return holds no CRLF. */
  lemma NoCrIsCrlfFree(s: string)
    requires '\r' !in s
    ensures SepFree(s, CRLF)
  {
    forall i | 0 <= i < |s|
      ensures !SepAt(s, i, CRLF)
    {
      if i + 2 <= |s| {
        assert s[i..i + 2][0] == s[i];
      }
    }
  }

  /** Two CRLF-free strings stay CRLF-free when concatenated, unless the join creates one. */
  lemma CrlfFreeConcat(a: string, b: string)
    requires SepFree(a, CRLF) && SepFree(b, CRLF)
    requires a == [] || b == [] || a[|a| - 1] != '\r' || b[0] != '\n'
    ensures SepFree(a + b, CRLF)
  {
    var s := a + b;
    forall i | 0 <= i < |s|
      ensures !SepAt(s, i, CRLF)
    {
      if i + 2 <= |s| {
        if i + 2 <= |a| {
          assert !SepAt(a, i, CRLF);
          assert s[i..i + 2] == a[i..i + 2];
        } else if i >= |a| {
          assert !SepAt(b, i - |a|, CRLF);
          assert s[i..i + 2] == b[i - |a|..i - |a| + 2];
        } else {
          assert s[i] == a[|a| - 1] && s[i + 1] == b[0];
        }
      }
    }
  }

  /** Splitting a CRLF-joined list of CRLF-free lines followed by CRLF and more text. */
  lemma {:induction false} SplitJoinCrlf(lines: seq<string>, rest: string)
    requires lines != []
    requires forall j :: 0 <= j < |lines| ==> SepFree(lines[j], CRLF)
    ensures Split(Join(lines, CRLF) + CRLF + rest, CRLF) == lines + Split(rest, CRLF)
    decreases |lines|
  {
    if |lines| == 1 {
      CrlfFreeBefore(lines[0], rest);
      SplitAt(lines[0], CRLF, rest);
    } else {
      var tail := Join(lines[1..], CRLF) + CRLF + rest;
      assert Join(lines, CRLF) + CRLF + rest == lines[0] + CRLF + tail;
      CrlfFreeBefore(lines[0], tail);
      SplitAt(lines[0], CRLF, tail);
      SplitJoinCrlf(lines[1..], rest);
      assert lines == [lines[0]] + lines[1..];
    }
  }

  // ---------------------------------------------------------------------------
  // SplitN(s, ":", 2)
  // ---------------------------------------------------------------------------

  /**
   * strings.SplitN(s, [c], 2): cut `s` at the first `c` only. None stands for
   * Go's one-element result, when `c` does not occur.
   */
  function CutFirst(s: string, c: char): (r: Option<(string, string)>)
    ensures r.None? <==> c !in s
    ensures r.Some? ==> c !in r.value.0 && s == r.value.0 + [c] + r.value.1
  {
    if s == [] then None
    else if s[0] == c then Some(([], s[1..]))
    else match CutFirst(s[1..], c)
      case None => None
      case Some((before, after)) => Some(([s[0]] + before, after))
  }

  /** The cut is at the first `c`: any later ones stay in the second half. */
  lemma {:induction false} CutFirstAt(before: string, c: char, after: string)
    requires c !in before
    ensures CutFirst(before + [c] + after, c) == Some((before, after))
    decreases |before|
  {
    var s := before + [c] + after;
    if before == [] {
      assert s[1..] == after;
    } else {
      assert s[0] == before[0] != c;
      assert s[1..] == before[1..] + [c] + after;
      CutFirstAt(before[1..], c, after);
      assert before == [before[0]] + before[1..];
    }
  }

  // ---------------------------------------------------------------------------
  // TrimSpace and ToLower
  // ---------------------------------------------------------------------------

  /** ASCII whitespace: space, tab, newline, vertical tab, form feed, carriage return. */
  predicate IsSpace(c: char) {
    c == ' ' || '\t' <= c <= '\r'
  }

  predicate AllSpace(s: string) {
    forall i :: 0 <= i < |s| ==> IsSpace(s[i])
  }

  /** Neither end of `s` is whitespace. */
  predicate IsTrimmed(s: string) {
    s == [] || (!IsSpace(s[0]) && !IsSpace(s[|s| - 1]))
  }

  /** strings.TrimLeft with whitespace: the suffix left after leading whitespace. */
  function TrimLeft(s: string): (r: string)
    decreases |s|
  {
    if s != [] && IsSpace(s[0]) then TrimLeft(s[1..]) else s
  }

  /** TrimLeft drops a run of whitespace from the front and stops at the first other character. */
  lemma {:induction false} TrimLeftDrops(s: string)
    ensures var r := TrimLeft(s);
      |r| <= |s| && r == s[|s| - |r|..] && AllSpace(s[..|s| - |r|]) && (r == [] || !IsSpace(r[0]))
    decreases |s|
  {
    if s != [] && IsSpace(s[0]) {
      TrimLeftDrops(s[1..]);
      var r := TrimLeft(s);
      assert s[..|s| - |r|] == [s[0]] + s[1..][..|s[1..]| - |r|];
    }
  }

  /** strings.TrimRight with whitespace: the prefix left before trailing whitespace. */
  function TrimRight(s: string): (r: string)
    decreases |s|
  {
    if s != [] && IsSpace(s[|s| - 1]) then TrimRight(s[..|s| - 1]) else s
  }

  /** TrimRight drops a run of whitespace from the back and stops at the last other character. */
  lemma {:induction false} TrimRightDrops(s: string)
    ensures var r := TrimRight(s);
      |r| <= |s| && r == s[..|r|] && AllSpace(s[|r|..]) && (r == [] || !IsSpace(r[|r| - 1]))
    decreases |s|
  {
    if s != [] && IsSpace(s[|s| - 1]) {
      var p := s[..|s| - 1];
      TrimRightDrops(p);
      var r := TrimRight(s);
      assert s[|r|..] == p[|r|..] + [s[|s| - 1]];
    }
  }

  /** strings.TrimSpace: `s` without its leading and trailing whitespace. */
  function TrimSpace(s: string): (r: string)
    ensures IsTrimmed(r)
  {
    TrimLeftDrops(s);
    TrimRightDrops(TrimLeft(s));
    TrimRight(TrimLeft(s))
  }

  /** TrimSpace removes exactly the outer whitespace: nothing more, nothing less. */
  lemma TrimSpaceExact(lead: string, t: string, trail: string)
    requires AllSpace(lead) && AllSpace(trail) && IsTrimmed(t)
    ensures TrimSpace(lead + t + trail) == t
  {
    var s := lead + t + trail;
    var l := TrimLeft(s);
    TrimLeftDrops(s);
    TrimRightDrops(l);
    if t == [] {
      assert AllSpace(s) by {
        forall i | 0 <= i < |s| ensures IsSpace(s[i]) {
          if i < |lead| { assert s[i] == lead[i]; } else { assert s[i] == trail[i - |lead|]; }
        }
      }
      assert l == [];
    } else {
      // TrimLeft stops exactly at the start of t
      assert s[|lead|] == t[0];
      assert |l| == |t| + |trail|;
      assert l == t + trail;
      var r := TrimRight(l);
      assert l[|t| - 1] == t[|t| - 1];
      assert |r| == |t|;
      assert r == l[..|t|] == t;
    }
  }

  /** TrimSpace leaves an already trimmed string alone, so it is idempotent. */
  lemma TrimSpaceTrimmed(t: string)
    requires IsTrimmed(t)
    ensures TrimSpace(t) == t
  {
    TrimSpaceExact([], t, []);
    assert [] + t + [] == t;
  }

  predicate IsUpper(c: char) {
    'A' <= c <= 'Z'
  }

  /** ASCII lower-casing of one character. */
  function LowerChar(c: char): char {
    if IsUpper(c) then (c as int + 32) as char else c
  }

  /** No upper-case ASCII letter occurs in `s`. */
  predicate NoUpper(s: string) {
    forall i :: 0 <= i < |s| ==> !IsUpper(s[i])
  }

  /**
   * strings.ToLower restricted to ASCII: every upper-case letter becomes its
   * lower-case form, every other character stays, and the length is kept.
   */
  function ToLower(s: string): (r: string)
    ensures |r| == |s| && NoUpper(r)
    ensures forall i :: 0 <= i < |s| && !IsUpper(s[i]) ==> r[i] == s[i]
    ensures forall i :: 0 <= i < |s| && IsUpper(s[i]) ==> r[i] as int == s[i] as int + 32
    decreases |s|
  {
    if s == [] then [] else [LowerChar(s[0])] + ToLower(s[1..])
  }

  /** ToLower changes nothing in a string without upper-case letters, so it is idempotent. */
  lemma ToLowerNoUpper(s: string)
    requires NoUpper(s)
    ensures ToLower(s) == s
  {
  }

  /** Lower-casing keeps whitespace where it was, so a trimmed string stays trimmed. */
  lemma ToLowerTrimmed(s: string)
    requires IsTrimmed(s)
    ensures IsTrimmed(ToLower(s))
  {
  }

  // ---------------------------------------------------------------------------
  // fmt's %d
  // ---------------------------------------------------------------------------

  predicate IsDigit(c: char) {
    '0' <= c <= '9'
  }

  predicate AllDigits(s: string) {
    forall i :: 0 <= i < |s| ==> IsDigit(s[i])
  }

  function DigitChar(d: nat): (c: char)
    requires d < 10
  {
    ('0' as int + d) as char
  }

  /** The decimal digits of `n`, without leading zeros. */
  function NatToDecimal(n: nat): (s: string)
    ensures s != [] && AllDigits(s)
    ensures s[0] == '0' ==> s == "0"
    decreases n
  {
    if n < 10 then [DigitChar(n)] else NatToDecimal(n / 10) + [DigitChar(n % 10)]
  }

  /** The value a string of decimal digits denotes; the partner of NatToDecimal. */
  function DecimalValue(s: string): nat
    requires AllDigits(s)
    decreases |s|
  {
    if s == [] then 0 else 10 * DecimalValue(s[..|s| - 1]) + (s[|s| - 1] as int - '0' as int)
  }

  /** Reading back the digits NatToDecimal writes gives the number. */
  lemma {:induction false} DecimalRoundTrip(n: nat)
    ensures DecimalValue(NatToDecimal(n)) == n
    decreases n
  {
    if n >= 10 {
      DecimalRoundTrip(n / 10);
      var s := NatToDecimal(n);
      assert s[..|s| - 1] == NatToDecimal(n / 10);
    }
  }

  /** fmt's %d of an int: a minus sign for negative values, then the digits. */
  function IntToDecimal(i: int): (s: string)
    ensures s != []
    ensures (i < 0 <==> s[0] == '-') && AllDigits(if i < 0 then s[1..] else s)
  {
    if i < 0 then "-" + NatToDecimal(-i) else NatToDecimal(i)
  }

  /** The written integer holds neither a space nor a carriage return. */
  lemma IntToDecimalChars(i: int)
    ensures ' ' !in IntToDecimal(i) && '\r' !in IntToDecimal(i)
  {
    var s := IntToDecimal(i);
    forall j | 0 <= j < |s|
      ensures s[j] != ' ' && s[j] != '\r'
    {
      if i < 0 && j > 0 {
        assert s[j] == s[1..][j - 1];
      }
    }
  }

  /** The signed value of IntToDecimal's output is the integer. */
  lemma IntToDecimalRoundTrip(i: int)
    ensures var s := IntToDecimal(i);
      (if s[0] == '-' then 0 - DecimalValue(s[1..]) else DecimalValue(s) as int) == i
  {
    if i < 0 {
      DecimalRoundTrip(-i);
      assert IntToDecimal(i)[1..] == NatToDecimal(-i);
    } else {
      DecimalRoundTrip(i);
    }
  }
}
