/**
  The log-file name chosen when logging starts: a clock timestamp, then the
  title made filesystem-friendly, then ".log". The clock read is a parameter.
 */
module LogNames {

  import opened Options
  import opened Chars
  import opened Seqs

  function Underscored(c: char): char {
    if IsAlnum(c) then c else '_'
  }

  predicate IsUnderscore(c: char) {
    c == '_'
  }

  /** Every non-alphanumeric character becomes '_', then trailing '_' go. */
  function CleanTitle(title: string): (r: string)
    ensures |r| <= |title|
    ensures forall i :: 0 <= i < |r| ==> IsAlnum(r[i]) || r[i] == '_'
    ensures r == [] || r[|r| - 1] != '_'
    ensures forall i :: 0 <= i < |title| && IsAlnum(title[i]) ==> i < |r| && r[i] == title[i]
    ensures forall i :: 0 <= i < |r| && !IsAlnum(title[i]) ==> r[i] == '_'
    ensures forall i :: |r| <= i < |title| ==> !IsAlnum(title[i])
  {
    var mapped := seq(|title|, i requires 0 <= i < |title| => Underscored(title[i]));
    assert forall i :: 0 <= i < |title| && IsAlnum(title[i]) ==> !IsUnderscore(mapped[i]);
    DropLastWhile(IsUnderscore, mapped)
  }

  /** The file name: "<timestamp>_<clean title>.log" when a non-empty title is
      given, "<timestamp>.log" when the title is missing or empty. */
  function LogFilename(timestamp: string, title: Option<string>): (r: string)
    ensures title.None? || title.value == [] ==> r == timestamp + ".log"
    ensures title.Some? && title.value != [] ==>
      exists clean :: clean == CleanTitle(title.value) && r == timestamp + "_" + clean + ".log"
  {
    if title.Some? && title.value != [] then timestamp + "_" + CleanTitle(title.value) + ".log"
    else timestamp + ".log"
  }

  /** A title with no alphanumeric character still takes the title branch and
      leaves a lone '_' behind the timestamp. */
  lemma NoAlnumTitle(timestamp: string, title: string)
    requires title != [] && forall i :: 0 <= i < |title| ==> !IsAlnum(title[i])
    ensures LogFilename(timestamp, Some(title)) == timestamp + "_.log"
  {
    assert CleanTitle(title) == [];
  }

  /** Cleaning a title that is already clean changes nothing. */
  lemma CleanTitleIdempotent(title: string)
    ensures CleanTitle(CleanTitle(title)) == CleanTitle(title)
  {
    var c := CleanTitle(title);
    var d := CleanTitle(c);
    forall i | 0 <= i < |c| && c[i] != '_'
      ensures i < |d| && d[i] == c[i]
    {
      assert IsAlnum(c[i]);
    }
    if c != [] {
      assert IsAlnum(c[|c| - 1]);
    }
    assert |d| == |c|;
    forall i | 0 <= i < |c|
      ensures d[i] == c[i]
    {
      if c[i] == '_' {
        assert !IsAlnum(c[i]);
      }
    }
  }
}
