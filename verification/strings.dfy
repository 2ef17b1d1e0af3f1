/**
  The Python string operations the library relies on: prefix, suffix and
  substring tests, `lower`, `strip`, `split()` and `' '.join`, and the decimal
  conversions of `int()` and `str()` on integers.
 */
module Strings {

  import opened Seqs
  import opened Chars

  /** `s.startswith(p)` */
  predicate StartsWith(s: string, p: string) {
    |p| <= |s| && s[..|p|] == p
  }

  /** `s.endswith(p)` */
  predicate EndsWith(s: string, p: string) {
    |p| <= |s| && s[|s| - |p|..] == p
  }

  /** `t in s` for strings: `t` occurs in `s` as a contiguous substring. */
  predicate Contains(s: string, t: string) {
    exists i :: 0 <= i <= |s| - |t| && OccursAt(s, t, i)
  }

  /** `t` occurs in `s` starting at index `i`. */
  predicate OccursAt(s: string, t: string, i: int) {
    0 <= i && i + |t| <= |s| && s[i..i + |t|] == t
  }

  /** `t` does not occur in `s` when its first character is absent where an occurrence could start. */
  lemma NotContainsHead(s: string, t: string)
    requires t != []
    requires forall i :: 0 <= i <= |s| - |t| ==> s[i] != t[0]
    ensures !Contains(s, t)
  {
    forall i | 0 <= i <= |s| - |t|
      ensures !OccursAt(s, t, i)
    {
      assert s[i..i + |t|][0] == s[i];
    }
  }

  /** `t` does not occur in `s` when its first two characters never appear together where an occurrence could start. */
  lemma NotContainsPair(s: string, t: string)
    requires |t| >= 2
    requires forall i :: 0 <= i <= |s| - |t| ==> s[i] != t[0] || s[i + 1] != t[1]
    ensures !Contains(s, t)
  {
    forall i | 0 <= i <= |s| - |t|
      ensures !OccursAt(s, t, i)
    {
      assert s[i..i + |t|][0] == s[i];
      assert s[i..i + |t|][1] == s[i + 1];
    }
  }

  /** `s` does not end with `t` when one aligned character differs. */
  lemma NotEndsWithAt(s: string, t: string, j: nat)
    requires j < |t| <= |s| && s[|s| - |t| + j] != t[j]
    ensures !EndsWith(s, t)
  {
    assert s[|s| - |t|..][j] == s[|s| - |t| + j];
  }

  /** `s.lower()` */
  function Lower(s: string): (r: string)
    ensures |r| == |s|
    ensures forall i :: 0 <= i < |s| ==> r[i] == ToLower(s[i])
  {
    seq(|s|, i requires 0 <= i < |s| => ToLower(s[i]))
  }

  predicate NotSpace(c: char) {
    !IsSpace(c)
  }

  /** A string with no whitespace character. */
  predicate SpaceFree(s: string) {
    forall i :: 0 <= i < |s| ==> !IsSpace(s[i])
  }

  /** A word as `str.split()` produces it: non-empty and free of whitespace. */
  predicate IsWord(w: string) {
    |w| > 0 && SpaceFree(w)
  }

  predicate NonEmpty(s: string) {
    |s| > 0
  }

  /** `s.strip()`: `s` without leading and trailing whitespace. */
  function Strip(s: string): (r: string)
    ensures r == [] || (!IsSpace(r[0]) && !IsSpace(r[|r| - 1]))
  {
    DropLastWhile(IsSpace, DropWhile(IsSpace, s))
  }

  /** A string with no whitespace at either end is its own strip. */
  lemma StripUnchanged(s: string)
    requires s == [] || (!IsSpace(s[0]) && !IsSpace(s[|s| - 1]))
    ensures Strip(s) == s
  {
  }

  /** The first whitespace-delimited word of `s`, which must not start with whitespace. */
  function Word(s: string): (w: string)
    ensures |w| <= |s| && w == s[..|w|]
    ensures SpaceFree(w)
    ensures |w| < |s| ==> IsSpace(s[|w|])
  {
    TakeWhile(NotSpace, s)
  }

  /** `s.split()`: the maximal runs of non-whitespace characters of `s`, in order. */
  function Split(s: string): (ws: seq<string>)
    ensures forall i :: 0 <= i < |ws| ==> IsWord(ws[i])
    decreases |s|
  {
    if s == [] then []
    else if IsSpace(s[0]) then Split(s[1..])
    else
      var w := Word(s);
      [w] + Split(s[|w|..])
  }

  /** `' '.join(ws)` */
  function Join(ws: seq<string>): string
  {
    if |ws| == 0 then ""
    else if |ws| == 1 then ws[0]
    else ws[0] + " " + Join(ws[1..])
  }

  /** A whitespace-free string splits into itself alone, or into nothing when empty. */
  lemma SplitSpaceFree(w: string)
    requires SpaceFree(w)
    ensures Split(w) == if w == [] then [] else [w]
  {
    if w != [] {
      TakeWhileUnique(NotSpace, w, w);
      assert w[|w|..] == [];
    }
  }

  /** Splitting distributes over a concatenation whose seam is whitespace. */
  lemma {:induction false} SplitAppend(a: string, b: string)
    requires a == [] || b == [] || IsSpace(a[|a| - 1]) || IsSpace(b[0])
    ensures Split(a + b) == Split(a) + Split(b)
    decreases |a|
  {
    if a == [] {
      assert a + b == b;
    } else if IsSpace(a[0]) {
      assert (a + b)[1..] == a[1..] + b;
      SplitAppend(a[1..], b);
    } else {
      SplitAppendWord(a, b);
    }
  }

  /** The case of SplitAppend where `a` starts with a word. */
  lemma {:induction false} SplitAppendWord(a: string, b: string)
    requires a != [] && !IsSpace(a[0])
    requires b == [] || IsSpace(a[|a| - 1]) || IsSpace(b[0])
    ensures Split(a + b) == Split(a) + Split(b)
    decreases |a|, 0
  {
    var w := Word(a);
    var ab := a + b;
    WordOfPrefix(a, b);
    SplitWordHead(ab);
    SplitWordHead(a);
    DropAppend(a, b, |w|);
    var rest := a[|w|..];
    if |w| < |a| {
      assert rest[|rest| - 1] == a[|a| - 1];
      SplitAppend(rest, b);
    } else {
      assert rest == [] && rest + b == b;
    }
    AppendAssoc([w], Split(rest), Split(b));
  }

  /** A string that starts with a word splits into that word and the rest. */
  lemma SplitWordHead(s: string)
    requires s != [] && !IsSpace(s[0])
    ensures Split(s) == [Word(s)] + Split(s[|Word(s)|..])
  {
  }

  /** The first word of `a` is the first word of `a + b` when `b` does not
      continue it. */
  lemma WordOfPrefix(a: string, b: string)
    requires a != [] && !IsSpace(a[0])
    requires b == [] || IsSpace(a[|a| - 1]) || IsSpace(b[0])
    ensures Word(a + b) == Word(a)
  {
    var w := Word(a);
    var ab := a + b;
    assert w == ab[..|w|];
    if |w| < |a| {
      assert ab[|w|] == a[|w|];
    } else {
      assert w == a;
    }
    TakeWhileUnique(NotSpace, ab, w);
  }

  /** Splitting a join gives back the non-empty words. */
  lemma {:induction false} SplitJoin(ws: seq<string>)
    requires forall i :: 0 <= i < |ws| ==> SpaceFree(ws[i])
    ensures Split(Join(ws)) == Filter(NonEmpty, ws)
  {
    if |ws| == 1 {
      SplitSpaceFree(ws[0]);
      assert ws[1..] == [];
    } else if |ws| > 1 {
      SplitJoin(ws[1..]);
      SplitFront(ws[0], Join(ws[1..]));
    }
  }

  /** A whitespace-free string followed by a space splits off in front of the
      rest, unless it is empty. */
  lemma SplitFront(w: string, rest: string)
    requires SpaceFree(w)
    ensures Split(w + " " + rest) == (if w == [] then [] else [w]) + Split(rest)
  {
    SplitAppend(w, " " + rest);
    SplitSpaceFree(w);
    assert (" " + rest)[1..] == rest;
    AppendAssoc(w, " ", rest);
  }

  /** A non-empty join of words begins with the first word's first character
      and ends with the last word's last character. */
  lemma {:induction false} JoinEnds(ws: seq<string>)
    requires |ws| > 0 && forall i :: 0 <= i < |ws| ==> IsWord(ws[i])
    ensures |Join(ws)| > 0
    ensures IsWord(ws[0]) && Join(ws)[0] == ws[0][0]
    ensures IsWord(ws[|ws| - 1]) && Join(ws)[|Join(ws)| - 1] == Last(ws[|ws| - 1])
  {
    if |ws| > 1 {
      JoinEnds(ws[1..]);
    }
  }

  /** Every whitespace character of `s` is a plain space standing between two
      non-whitespace characters: no leading, trailing or repeated whitespace. */
  predicate Tidy(s: string) {
    forall i :: 0 <= i < |s| && IsSpace(s[i]) ==>
      s[i] == ' ' && 0 < i < |s| - 1 && !IsSpace(s[i - 1]) && !IsSpace(s[i + 1])
  }

  /** Joining words yields a tidy string. */
  lemma {:induction false} JoinTidy(ws: seq<string>)
    requires forall i :: 0 <= i < |ws| ==> IsWord(ws[i])
    ensures Tidy(Join(ws))
  {
    if |ws| > 1 {
      var w := ws[0];
      var rest := Join(ws[1..]);
      JoinTidy(ws[1..]);
      JoinEnds(ws[1..]);
      var j := w + " " + rest;
      forall i | 0 <= i < |j| && IsSpace(j[i])
        ensures j[i] == ' ' && 0 < i < |j| - 1 && !IsSpace(j[i - 1]) && !IsSpace(j[i + 1])
      {
        if i == |w| {
          assert j[i - 1] == w[|w| - 1];
          assert j[i + 1] == rest[0];
        } else if i > |w| + 1 {
          assert j[i] == rest[i - |w| - 1];
          assert j[i - 1] == rest[i - |w| - 2];
          assert j[i + 1] == rest[i - |w|];
        }
      }
    }
  }

  /** Every character of a join is a space or a character of one of the words. */
  lemma {:induction false} JoinChars(ws: seq<string>, k: nat)
    requires k < |Join(ws)|
    ensures Join(ws)[k] == ' ' || exists i, m :: 0 <= i < |ws| && 0 <= m < |ws[i]| && ws[i][m] == Join(ws)[k]
  {
    if |ws| == 1 {
      assert Join(ws)[k] == ws[0][k];
    } else if |ws| > 1 {
      var w := ws[0];
      if k < |w| {
        assert Join(ws)[k] == w[k];
      } else if k > |w| {
        assert Join(ws)[k] == Join(ws[1..])[k - |w| - 1];
        JoinChars(ws[1..], k - |w| - 1);
        if Join(ws)[k] != ' ' {
          var i, m :| 0 <= i < |ws[1..]| && 0 <= m < |ws[1..][i]| && ws[1..][i][m] == Join(ws)[k];
          assert ws[i + 1][m] == Join(ws)[k];
        }
      }
    }
  }

  function Last(s: string): char
    requires |s| > 0
  {
    s[|s| - 1]
  }

  /** `int(ds)` for a string of decimal digits; leading zeros are allowed. */
  function DecimalValue(ds: string): nat
    requires forall i :: 0 <= i < |ds| ==> IsDigit(ds[i])
  {
    if ds == [] then 0 else DecimalValue(ds[..|ds| - 1]) * 10 + DigitValue(ds[|ds| - 1])
  }

  function DigitChar(d: nat): (c: char)
    requires d < 10
    ensures IsDigit(c) && DigitValue(c) == d
  {
    ('0' as int + d) as char
  }

  /** `str(n)` for a natural number: its decimal digits without leading zeros. */
  function NatToString(n: nat): (s: string)
    ensures |s| > 0 && forall i :: 0 <= i < |s| ==> IsDigit(s[i])
    ensures DecimalValue(s) == n
    ensures |s| > 1 ==> s[0] != '0'
  {
    if n < 10 then [DigitChar(n)]
    else
      var s := NatToString(n / 10) + [DigitChar(n % 10)];
      assert s[..|s| - 1] == NatToString(n / 10);
      s
  }

  /** `str(i)` for a Python int. */
  function IntToString(i: int): (s: string)
    ensures |s| > 0
    ensures i >= 0 ==> s == NatToString(i)
    ensures i < 0 ==> s == "-" + NatToString(-i)
  {
    if i < 0 then "-" + NatToString(-i) else NatToString(i)
  }

  /** Leading zeros do not change the value `int()` reads. */
  lemma {:induction false} LeadingZero(ds: string)
    requires forall i :: 0 <= i < |ds| ==> IsDigit(ds[i])
    ensures DecimalValue("0" + ds) == DecimalValue(ds)
  {
    if ds != [] {
      assert ("0" + ds)[..|"0" + ds| - 1] == "0" + ds[..|ds| - 1];
      LeadingZero(ds[..|ds| - 1]);
    }
  }

}
