/**
  The text cleaners that need no language resources: word-level ones built
  from `str.split()`, a filter and `' '.join`, and character-level ones built
  from one regular-expression substitution each.
 */
module TextCleaning {

  import opened Chars
  import opened Seqs
  import opened Strings

  // ------------------------------------------------------- word-level cleaners

  /** `remove_extra_whitespace(body)`: the words of `body` joined by single spaces. */
  function RemoveExtraWhitespace(body: string): (r: string)
    ensures Tidy(r)
  {
    JoinTidy(Split(body));
    Join(Split(body))
  }

  /** The words survive unchanged and in order. */
  lemma ExtraWhitespaceKeepsWords(body: string)
    ensures Split(RemoveExtraWhitespace(body)) == Split(body)
  {
    var ws := Split(body);
    SplitJoin(ws);
    FilterAll(NonEmpty, ws);
  }

  /** `remove_extra_whitespace` is idempotent. */
  lemma ExtraWhitespaceIdempotent(body: string)
    ensures RemoveExtraWhitespace(RemoveExtraWhitespace(body)) == RemoveExtraWhitespace(body)
  {
    ExtraWhitespaceKeepsWords(body);
  }

  function LongEnough(minLen: int): string -> bool {
    w => |w| >= minLen
  }

  /** `remove_short_words(body, min_len)` */
  function RemoveShortWords(body: string, minLen: int := 2): (r: string)
    ensures Tidy(r)
  {
    var ws := Filter(LongEnough(minLen), Split(body));
    JoinTidy(ws);
    Join(ws)
  }

  /** Exactly the words of length at least `minLen` remain, in their order. */
  lemma ShortWordsKeepsLongWords(body: string, minLen: int)
    ensures Split(RemoveShortWords(body, minLen)) == Filter(LongEnough(minLen), Split(body))
  {
    var ws := Filter(LongEnough(minLen), Split(body));
    SplitJoin(ws);
    FilterAll(NonEmpty, ws);
  }

  /** With a minimum length of at most one every word is long enough. */
  lemma ShortWordsMinOne(body: string, minLen: int)
    requires minLen <= 1
    ensures RemoveShortWords(body, minLen) == RemoveExtraWhitespace(body)
  {
    FilterAll(LongEnough(minLen), Split(body));
  }

  predicate IsFlagged(w: string) {
    '$' in w || '&' in w
  }

  predicate Unflagged(w: string) {
    !IsFlagged(w)
  }

  /** A word containing '$' or '&' becomes the empty string. */
  function Blank(w: string): (r: string)
    ensures r == (if IsFlagged(w) then "" else w)
  {
    if IsFlagged(w) then "" else w
  }

  function BlankAll(ws: seq<string>): (r: seq<string>)
    ensures |r| == |ws| && forall i :: 0 <= i < |ws| ==> r[i] == Blank(ws[i])
  {
    if ws == [] then [] else [Blank(ws[0])] + BlankAll(ws[1..])
  }

  /** `filter_chars(body)`: every word containing '$' or '&' is replaced by the
      empty string, and the words are joined by single spaces. */
  function FilterChars(body: string): (r: string)
    ensures '$' !in r && '&' !in r
  {
    var ws := BlankAll(Split(body));
    NoFlaggedChar(ws);
    Join(ws)
  }

  lemma NoFlaggedChar(ws: seq<string>)
    requires forall i :: 0 <= i < |ws| ==> Unflagged(ws[i])
    ensures '$' !in Join(ws) && '&' !in Join(ws)
  {
    forall k | 0 <= k < |Join(ws)|
      ensures Join(ws)[k] != '$' && Join(ws)[k] != '&'
    {
      JoinChars(ws, k);
    }
  }

  /** The words that remain are exactly the unflagged words, in order. */
  lemma FilterCharsKeepsUnflagged(body: string)
    ensures Split(FilterChars(body)) == Filter(Unflagged, Split(body))
  {
    var ws := Split(body);
    SplitJoin(BlankAll(ws));
    BlankedWords(ws);
  }

  lemma {:induction false} BlankedWords(ws: seq<string>)
    requires forall i :: 0 <= i < |ws| ==> IsWord(ws[i])
    ensures Filter(NonEmpty, BlankAll(ws)) == Filter(Unflagged, ws)
  {
    if ws != [] {
      BlankedWords(ws[1..]);
      assert BlankAll(ws) == [Blank(ws[0])] + BlankAll(ws[1..]);
      FilterAppend(NonEmpty, [Blank(ws[0])], BlankAll(ws[1..]));
    }
  }

  /** Leading whitespace makes no difference. */
  lemma FilterCharsLeadingSpace(c: char, body: string)
    requires IsSpace(c)
    ensures FilterChars([c] + body) == FilterChars(body)
  {
    assert ([c] + body)[1..] == body;
  }

  /** The first word is blanked or kept, and a single space separates it from the
      filtered remainder, whatever whitespace stood between; with no remainder,
      the word alone is left. */
  lemma FilterCharsFront(w: string, rest: string)
    requires IsWord(w)
    ensures FilterChars(w + " " + rest) ==
      (if IsFlagged(w) then "" else w) + (if Split(rest) == [] then "" else " " + FilterChars(rest))
  {
    SplitFront(w, rest);
    var ws := Split(rest);
    var bs := BlankAll([w] + ws);
    assert bs == [Blank(w)] + BlankAll(ws);
    assert bs[1..] == BlankAll(ws);
    if ws != [] {
      AppendAssoc(Blank(w), " ", Join(BlankAll(ws)));
    }
  }

  /** A lone word containing '$' or '&' leaves the empty string. */
  lemma FilterCharsWord(w: string)
    requires IsWord(w)
    ensures FilterChars(w) == if IsFlagged(w) then "" else w
  {
    SplitSpaceFree(w);
  }

  /** A flagged first word leaves the single separating space in front of the next word. */
  lemma FlaggedFrontLeavesSpace(w: string, b: string)
    requires IsWord(w) && IsFlagged(w) && IsWord(b) && Unflagged(b)
    ensures FilterChars(w + " " + b) == " " + b
  {
    FilterCharsFront(w, b);
    SplitSpaceFree(b);
    FilterCharsWord(b);
  }

  /** "$a b" becomes " b". */
  lemma FlaggedFrontKeepsSpace()
    ensures FilterChars("$a b") == " b"
  {
    var w, b := "$a", "b";
    assert IsFlagged(w) && IsWord(w) && IsWord(b) && Unflagged(b);
    FlaggedFrontLeavesSpace(w, b);
    assert w + " " + b == "$a b";
  }

  /** A flagged word between two words leaves two adjacent spaces behind. */
  lemma DroppedWordLeavesGap(a: string, w: string, b: string)
    requires IsWord(a) && IsWord(w) && IsWord(b)
    requires Unflagged(a) && IsFlagged(w) && Unflagged(b)
    ensures FilterChars(a + " " + w + " " + b) == a + "  " + b
  {
    SplitThree(a, w, b);
    BlankThree(a, w, b);
    JoinGap(a, b);
  }

  lemma BlankThree(a: string, w: string, b: string)
    requires Unflagged(a) && IsFlagged(w) && Unflagged(b)
    ensures BlankAll([a, w, b]) == [a, "", b]
  {
  }

  lemma JoinGap(a: string, b: string)
    ensures Join([a, "", b]) == a + "  " + b
  {
    assert [a, "", b][1..] == ["", b] && ["", b][1..] == [b];
    assert Join(["", b]) == "" + " " + b;
    assert a + " " + ("" + " " + b) == a + "  " + b;
  }

  lemma SplitThree(a: string, w: string, b: string)
    requires IsWord(a) && IsWord(w) && IsWord(b)
    ensures Split(a + " " + w + " " + b) == [a, w, b]
  {
    SplitFront(w, b);
    SplitSpaceFree(b);
    SplitFront(a, w + " " + b);
    AppendAssoc(a + " ", w + " ", b);
    AppendAssoc(a + " ", w, " ");
  }

  /** `remove_short_tickets(ticket, min_words)`: the ticket itself when it has at
      least `minWords` words, the empty string otherwise. */
  function RemoveShortTickets(ticket: string, minWords: int := 0): (r: string)
    ensures r == ticket || r == ""
    ensures |Split(ticket)| >= minWords ==> r == ticket
    ensures |Split(ticket)| < minWords ==> r == ""
  {
    if |Split(ticket)| >= minWords then ticket else ""
  }

  /** With the default minimum of no words every ticket is kept. */
  lemma DefaultKeepsTicket(ticket: string)
    ensures RemoveShortTickets(ticket) == ticket
  {
  }

  /** A ticket kept at some minimum is kept at every smaller one. */
  lemma TicketsKeptBelow(ticket: string, m: int, n: int)
    requires n <= m && RemoveShortTickets(ticket, m) == ticket
    ensures RemoveShortTickets(ticket, n) == ticket
  {
  }

  // ------------------------------------------------------- character cleaners

  /** `re.sub(r'\s\s+', ' ', body)`: every run of two or more whitespace
      characters becomes one space; a lone whitespace character stays. */
  function RemoveMultSpaces(s: string): (r: string)
    ensures forall i :: 0 <= i < |r| - 1 ==> !(IsSpace(r[i]) && IsSpace(r[i + 1]))
    ensures r == [] <==> s == []
    ensures s != [] && !IsSpace(s[0]) ==> r[0] == s[0]
    decreases |s|
  {
    if s == [] then []
    else if |s| >= 2 && IsSpace(s[0]) && IsSpace(s[1]) then " " + RemoveMultSpaces(DropWhile(IsSpace, s))
    else [s[0]] + RemoveMultSpaces(s[1..])
  }

  /** A run of two or more whitespace characters in front of a non-space
      becomes a single ' '. */
  lemma CollapseRunFront(run: string, b: string)
    requires |run| >= 2 && forall i :: 0 <= i < |run| ==> IsSpace(run[i])
    requires b == [] || !IsSpace(b[0])
    ensures RemoveMultSpaces(run + b) == " " + RemoveMultSpaces(b)
  {
    DropWhileAfter(IsSpace, run, b);
    assert (run + b)[0] == run[0] && (run + b)[1] == run[1];
  }

  /** Collapsing works piecewise when no whitespace run straddles the cut. */
  lemma {:induction false} MultSpacesAppend(a: string, x: string)
    requires a == [] || x == [] || !IsSpace(a[|a| - 1]) || !IsSpace(x[0])
    ensures RemoveMultSpaces(a + x) == RemoveMultSpaces(a) + RemoveMultSpaces(x)
    decreases |a|
  {
    if a == [] {
      assert a + x == x;
    } else if |a| >= 2 && IsSpace(a[0]) && IsSpace(a[1]) {
      var d := DropWhile(IsSpace, a);
      if d != [] {
        assert d[|d| - 1] == a[|a| - 1];
        MultSpacesAppend(d, x);
        RunStep(a, x);
      } else {
        RunToEnd(a, x);
      }
    } else {
      MultSpacesAppend(a[1..], x);
      HeadStep(a, x);
    }
  }

  /** The step of MultSpacesAppend for a run that ends inside `a`. */
  lemma RunStep(a: string, x: string)
    requires |a| >= 2 && IsSpace(a[0]) && IsSpace(a[1]) && DropWhile(IsSpace, a) != []
    requires var d := DropWhile(IsSpace, a); RemoveMultSpaces(d + x) == RemoveMultSpaces(d) + RemoveMultSpaces(x)
    ensures RemoveMultSpaces(a + x) == RemoveMultSpaces(a) + RemoveMultSpaces(x)
  {
    var d := DropWhile(IsSpace, a);
    assert (a + x)[0] == a[0] && (a + x)[1] == a[1];
    DropWhileAppend(IsSpace, a, x);
    AppendAssoc(" ", RemoveMultSpaces(d), RemoveMultSpaces(x));
  }

  /** The step of MultSpacesAppend for a string `a` that is all whitespace. */
  lemma RunToEnd(a: string, x: string)
    requires |a| >= 2 && IsSpace(a[0]) && IsSpace(a[1]) && DropWhile(IsSpace, a) == []
    requires x == [] || !IsSpace(x[0])
    ensures RemoveMultSpaces(a + x) == RemoveMultSpaces(a) + RemoveMultSpaces(x)
  {
    var y := a + x;
    assert y[0] == a[0] && y[1] == a[1];
    var t := TakeWhile(IsSpace, a);
    assert |t| == |a|;
    assert forall i :: 0 <= i < |a| ==> IsSpace(a[i]) by {
      forall i | 0 <= i < |a| ensures IsSpace(a[i]) {
        assert a[i] == t[i];
      }
    }
    DropWhileAfter(IsSpace, a, x);
    assert RemoveMultSpaces(y) == " " + RemoveMultSpaces(x);
    assert RemoveMultSpaces(a) == " ";
  }

  /** The step of MultSpacesAppend for a first character that is kept. */
  lemma HeadStep(a: string, x: string)
    requires a != [] && !(|a| >= 2 && IsSpace(a[0]) && IsSpace(a[1]))
    requires |a| == 1 && IsSpace(a[0]) ==> x == [] || !IsSpace(x[0])
    requires RemoveMultSpaces(a[1..] + x) == RemoveMultSpaces(a[1..]) + RemoveMultSpaces(x)
    ensures RemoveMultSpaces(a + x) == RemoveMultSpaces(a) + RemoveMultSpaces(x)
  {
    assert a == [a[0]] + a[1..];
    HeadStepCons(a[0], a[1..], x);
  }

  /** HeadStep on a string written as head and tail. */
  lemma HeadStepCons(c: char, t: string, x: string)
    requires !(t != [] && IsSpace(c) && IsSpace(t[0]))
    requires t == [] && IsSpace(c) ==> x == [] || !IsSpace(x[0])
    requires RemoveMultSpaces(t + x) == RemoveMultSpaces(t) + RemoveMultSpaces(x)
    ensures RemoveMultSpaces([c] + t + x) == RemoveMultSpaces([c] + t) + RemoveMultSpaces(x)
  {
    HeadOfAppend(t, x);
    KeptHead(c, t + x);
    KeptHead(c, t);
    AppendAssoc([c], t, x);
    AppendAssoc([c], RemoveMultSpaces(t), RemoveMultSpaces(x));
  }

  lemma HeadOfAppend<T>(t: seq<T>, x: seq<T>)
    ensures t != [] ==> (t + x)[0] == t[0]
    ensures t == [] ==> t + x == x
  {
  }

  /** A first character not followed by a second whitespace character is kept. */
  lemma KeptHead(c: char, t: string)
    requires !(t != [] && IsSpace(c) && IsSpace(t[0]))
    ensures RemoveMultSpaces([c] + t) == [c] + RemoveMultSpaces(t)
  {
    assert ([c] + t)[0] == c && ([c] + t)[1..] == t;
    assert t != [] ==> ([c] + t)[1] == t[0];
  }

  /** A run of two or more whitespace characters between non-space characters
      becomes a single ' ', in place. */
  lemma MultSpacesRunBetween(a: string, run: string, b: string)
    requires |run| >= 2 && forall i :: 0 <= i < |run| ==> IsSpace(run[i])
    requires a == [] || !IsSpace(a[|a| - 1])
    requires b == [] || !IsSpace(b[0])
    ensures RemoveMultSpaces(a + run + b) == RemoveMultSpaces(a) + " " + RemoveMultSpaces(b)
  {
    CollapseRunFront(run, b);
    MultSpacesAppend(a, run + b);
    AppendAssoc(a, run, b);
    AppendAssoc(RemoveMultSpaces(a), " ", RemoveMultSpaces(b));
  }

  /** A lone whitespace character between non-space characters stays as it is. */
  lemma MultSpacesLoneBetween(a: string, c: char, b: string)
    requires IsSpace(c)
    requires a == [] || !IsSpace(a[|a| - 1])
    requires b == [] || !IsSpace(b[0])
    ensures RemoveMultSpaces(a + [c] + b) == RemoveMultSpaces(a) + [c] + RemoveMultSpaces(b)
  {
    assert ([c] + b)[0] == c && ([c] + b)[1..] == b;
    assert b != [] ==> ([c] + b)[1] == b[0];
    MultSpacesAppend(a, [c] + b);
    AppendAssoc(a, [c], b);
    AppendAssoc(RemoveMultSpaces(a), [c], RemoveMultSpaces(b));
  }

  /** A lone leading whitespace character stays as it is, while a later run of
      two or more becomes one space. */
  lemma LoneThenRun(c: char, a: string, run: string, b: string)
    requires IsSpace(c) && IsWord(a) && IsWord(b)
    requires |run| >= 2 && forall i :: 0 <= i < |run| ==> IsSpace(run[i])
    ensures RemoveMultSpaces([c] + a + run + b) == [c] + a + " " + b
  {
    SpaceThenWord(c, a);
    MultSpacesRunBetween([c] + a, run, b);
    MultSpacesFixed(b);
  }

  /** One whitespace character in front of a word is left alone. */
  lemma SpaceThenWord(c: char, a: string)
    requires IsSpace(c) && IsWord(a)
    ensures var ca := [c] + a; !IsSpace(ca[|ca| - 1]) && RemoveMultSpaces(ca) == ca
  {
    var ca := [c] + a;
    assert ca[|ca| - 1] == a[|a| - 1];
    forall i | 0 <= i < |ca| - 1 ensures !(IsSpace(ca[i]) && IsSpace(ca[i + 1])) {
      assert ca[i + 1] == a[i];
    }
    MultSpacesFixed(ca);
  }

  /** " a  b" becomes " a b". */
  lemma LoneThenDouble()
    ensures RemoveMultSpaces(" a  b") == " a b"
  {
    var a, b, run := "a", "b", "  ";
    assert IsWord(a) && IsWord(b) && IsSpace(' ') && forall i :: 0 <= i < |run| ==> IsSpace(run[i]);
    LoneThenRun(' ', a, run, b);
    assert [' '] + a + run + b == " a  b";
    assert [' '] + a + " " + b == " a b";
  }

  /** Leading whitespace does not change the words. */
  lemma {:induction false} SplitDropSpaces(s: string)
    ensures Split(DropWhile(IsSpace, s)) == Split(s)
  {
    if s != [] && IsSpace(s[0]) {
      SplitDropSpaces(s[1..]);
    }
  }

  /** Collapsing whitespace runs keeps the words, even behind a partial word `p`. */
  lemma {:induction false} MultSpacesSplitAfter(p: string, s: string)
    requires SpaceFree(p)
    ensures Split(p + RemoveMultSpaces(s)) == Split(p + s)
    decreases |s|, 0
  {
    if s == [] {
      assert p + RemoveMultSpaces(s) == p == p + s;
    } else if |s| >= 2 && IsSpace(s[0]) && IsSpace(s[1]) {
      MultSpacesKeepsWords(DropWhile(IsSpace, s));
      CollapsedRun(p, s);
    } else if IsSpace(s[0]) {
      MultSpacesKeepsWords(s[1..]);
      LoneSpace(p, s);
    } else {
      SpaceFreeSnoc(p, s[0]);
      MultSpacesSplitAfter(p + [s[0]], s[1..]);
      WordCharacter(p, s);
    }
  }

  lemma SpaceFreeSnoc(p: string, c: char)
    requires SpaceFree(p) && !IsSpace(c)
    ensures SpaceFree(p + [c])
  {
  }

  /** The step of MultSpacesSplitAfter for a character that extends the partial word. */
  lemma WordCharacter(p: string, s: string)
    requires s != [] && !IsSpace(s[0])
    ensures p + RemoveMultSpaces(s) == p + [s[0]] + RemoveMultSpaces(s[1..])
    ensures p + s == p + [s[0]] + s[1..]
  {
    var t := RemoveMultSpaces(s[1..]);
    assert RemoveMultSpaces(s) == [s[0]] + t;
    AppendAssoc(p, [s[0]], t);
    AppendAssoc(p, [s[0]], s[1..]);
    assert [s[0]] + s[1..] == s;
  }

  /** The step of MultSpacesSplitAfter for a run of two or more whitespace characters. */
  lemma CollapsedRun(p: string, s: string)
    requires |s| >= 2 && IsSpace(s[0]) && IsSpace(s[1])
    requires Split(RemoveMultSpaces(DropWhile(IsSpace, s))) == Split(DropWhile(IsSpace, s))
    ensures Split(p + RemoveMultSpaces(s)) == Split(p + s)
  {
    var d := DropWhile(IsSpace, s);
    SplitDropSpaces(s);
    SplitBehindSpace(' ', RemoveMultSpaces(d));
    assert RemoveMultSpaces(s) == " " + RemoveMultSpaces(d);
    SplitAfterSpaces(p, " " + RemoveMultSpaces(d), s);
  }

  /** The step of MultSpacesSplitAfter for a lone whitespace character. */
  lemma LoneSpace(p: string, s: string)
    requires s != [] && IsSpace(s[0]) && !(|s| >= 2 && IsSpace(s[1]))
    requires Split(RemoveMultSpaces(s[1..])) == Split(s[1..])
    ensures Split(p + RemoveMultSpaces(s)) == Split(p + s)
  {
    assert RemoveMultSpaces(s) == [s[0]] + RemoveMultSpaces(s[1..]);
    LoneSpaceWords(s);
    SplitAfterSpaces(p, RemoveMultSpaces(s), s);
  }

  lemma LoneSpaceWords(s: string)
    requires s != [] && IsSpace(s[0])
    requires Split(RemoveMultSpaces(s[1..])) == Split(s[1..])
    ensures Split([s[0]] + RemoveMultSpaces(s[1..])) == Split(s)
  {
    SplitBehindSpace(s[0], RemoveMultSpaces(s[1..]));
    SplitBehindSpace(s[0], s[1..]);
    assert [s[0]] + s[1..] == s;
  }

  /** A leading whitespace character does not change the words. */
  lemma SplitBehindSpace(c: char, s: string)
    requires IsSpace(c)
    ensures Split([c] + s) == Split(s)
  {
    assert ([c] + s)[1..] == s;
  }

  /** Two strings that start with whitespace and have the same words keep the
      same words behind any prefix. */
  lemma SplitAfterSpaces(p: string, x: string, y: string)
    requires x != [] && y != [] && IsSpace(x[0]) && IsSpace(y[0]) && Split(x) == Split(y)
    ensures Split(p + x) == Split(p + y)
  {
    SplitAppend(p, x);
    SplitAppend(p, y);
  }

  /** `remove_mult_spaces` keeps the words of its input. */
  lemma {:induction false} MultSpacesKeepsWords(s: string)
    ensures Split(RemoveMultSpaces(s)) == Split(s)
    decreases |s|, 1
  {
    MultSpacesSplitAfter([], s);
    assert [] + RemoveMultSpaces(s) == RemoveMultSpaces(s) && [] + s == s;
  }

  /** A string with no two adjacent whitespace characters is left alone, tabs and all. */
  lemma {:induction false} MultSpacesFixed(s: string)
    requires forall i :: 0 <= i < |s| - 1 ==> !(IsSpace(s[i]) && IsSpace(s[i + 1]))
    ensures RemoveMultSpaces(s) == s
  {
    if s != [] {
      MultSpacesFixed(s[1..]);
    }
  }

  /** `remove_mult_spaces` is idempotent. */
  lemma MultSpacesIdempotent(s: string)
    ensures RemoveMultSpaces(RemoveMultSpaces(s)) == RemoveMultSpaces(s)
  {
    MultSpacesFixed(RemoveMultSpaces(s));
  }

  predicate NotDigit(c: char) {
    !IsDigit(c)
  }

  /** `re.sub(r'\d+', '', body)`: every run of ASCII digits is deleted. */
  function RemoveNumbers(s: string): (r: string)
    ensures forall i :: 0 <= i < |r| ==> !IsDigit(r[i])
    decreases |s|
  {
    if s == [] then []
    else if IsDigit(s[0]) then RemoveNumbers(DropWhile(IsDigit, s))
    else [s[0]] + RemoveNumbers(s[1..])
  }

  /** Deleting the runs of digits deletes exactly the digits and keeps every other character in order. */
  lemma {:induction false} RemoveNumbersFilters(s: string)
    ensures RemoveNumbers(s) == Filter(NotDigit, s)
    decreases |s|
  {
    if s != [] {
      if IsDigit(s[0]) {
        var run := TakeWhile(IsDigit, s);
        var rest := DropWhile(IsDigit, s);
        assert s == run + rest;
        FilterAppend(NotDigit, run, rest);
        FilterNone(NotDigit, run);
        RemoveNumbersFilters(rest);
      } else {
        RemoveNumbersFilters(s[1..]);
      }
    }
  }

  /** `remove_numbers` is idempotent. */
  lemma RemoveNumbersIdempotent(s: string)
    ensures RemoveNumbers(RemoveNumbers(s)) == RemoveNumbers(s)
  {
    RemoveNumbersFilters(RemoveNumbers(s));
    FilterAll(NotDigit, RemoveNumbers(s));
  }

  /** A character of the class `[\?\.\!]`. */
  predicate IsPunct(c: char) {
    c == '?' || c == '.' || c == '!'
  }

  /** `re.sub(r'[\?\.\!]+(?=[\?\.\!])', '', body)`: every maximal run of '?', '.'
      and '!' is cut down to its last character. */
  function RemoveRepeatedPunctuation(s: string): (r: string)
    ensures forall i :: 0 <= i < |r| - 1 ==> !(IsPunct(r[i]) && IsPunct(r[i + 1]))
    ensures r == [] <==> s == []
    ensures s != [] && !IsPunct(s[0]) ==> r[0] == s[0]
    decreases |s|
  {
    if s == [] then []
    else if IsPunct(s[0]) then
      var run := TakeWhile(IsPunct, s);
      [run[|run| - 1]] + RemoveRepeatedPunctuation(s[|run|..])
    else [s[0]] + RemoveRepeatedPunctuation(s[1..])
  }

  /** Reference definition: keep each character unless it is punctuation
      followed by punctuation. */
  function KeepLastOfRuns(s: string): string
  {
    if s == [] then []
    else (if |s| > 1 && IsPunct(s[0]) && IsPunct(s[1]) then [] else [s[0]]) + KeepLastOfRuns(s[1..])
  }

  lemma {:induction false} KeepLastOfRun(run: string, rest: string)
    requires run != [] && forall i :: 0 <= i < |run| ==> IsPunct(run[i])
    requires rest == [] || !IsPunct(rest[0])
    ensures KeepLastOfRuns(run + rest) == [run[|run| - 1]] + KeepLastOfRuns(rest)
  {
    if |run| == 1 {
      assert (run + rest)[1..] == rest;
    } else {
      assert (run + rest)[1..] == run[1..] + rest;
      KeepLastOfRun(run[1..], rest);
    }
  }

  /** The substitution keeps exactly the characters the reference keeps. */
  lemma {:induction false} RepeatedPunctuationReference(s: string)
    ensures RemoveRepeatedPunctuation(s) == KeepLastOfRuns(s)
    decreases |s|
  {
    if s != [] {
      if IsPunct(s[0]) {
        var run := TakeWhile(IsPunct, s);
        var rest := s[|run|..];
        assert s == run + rest;
        KeepLastOfRun(run, rest);
        RepeatedPunctuationReference(rest);
      } else {
        RepeatedPunctuationReference(s[1..]);
      }
    }
  }

  /** A string with no two adjacent punctuation characters is left alone. */
  lemma {:induction false} RepeatedPunctuationFixed(s: string)
    requires forall i :: 0 <= i < |s| - 1 ==> !(IsPunct(s[i]) && IsPunct(s[i + 1]))
    ensures RemoveRepeatedPunctuation(s) == s
  {
    if s != [] {
      if IsPunct(s[0]) {
        assert TakeWhile(IsPunct, s[1..]) == [];
        assert |TakeWhile(IsPunct, s)| == 1;
      }
      RepeatedPunctuationFixed(s[1..]);
    }
  }

  /** `remove_repeated_punctuation` is idempotent. */
  lemma RepeatedPunctuationIdempotent(s: string)
    ensures RemoveRepeatedPunctuation(RemoveRepeatedPunctuation(s)) == RemoveRepeatedPunctuation(s)
  {
    RepeatedPunctuationFixed(RemoveRepeatedPunctuation(s));
  }

}
