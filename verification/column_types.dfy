/**
  The column-type classifier of the metadata generator: an ordered, early-exit
  cascade over a column name and a sample of its values, and the header
  overrides its two callers apply to the verdict afterwards.

  Python's `float()` parse and `str()` of a float, and the one date pattern
  that needs a regex engine (`\w+\s+\d{1,2},\s+\d{4}`), are supplied by a
  `Runtime`; the three fixed-width date patterns are written out. Every
  fractional threshold is compared exactly, by cross-multiplying integers.
 */
module ColumnTypes {

  import opened Options
  import opened Chars
  import opened Seqs
  import opened Strings

  datatype ColumnType = Categorical | Ordinal | Continuous | Text | Datetime

  /** A Python number as it appears in a sample. */
  datatype Number = PyInt(i: int) | PyFloat(x: real)

  /** A sampled cell: `None`, a number or a string. */
  datatype Value = Null | Num(n: Number) | Str(s: string)

  /** What the Python runtime contributes and the model does not define:
      `float(s)` (None when it raises ValueError), `str(x)` for a float, and
      whether `re.search(r'\w+\s+\d{1,2},\s+\d{4}', s)` finds a match. */
  datatype Runtime = Runtime(
    parseFloat: string -> Option<real>,
    floatRepr: real -> string,
    monthDayYear: string -> bool)

  // ---------------------------------------------------------------- cleaning

  /** One cell after cleaning: `None` is dropped and strings are stripped. */
  function CleanValue(v: Value): (r: Option<Value>)
    ensures r.None? <==> v.Null?
    ensures v.Str? ==> r == Some(Str(Strip(v.s)))
    ensures v.Num? ==> r == Some(v)
  {
    match v
    case Null => None
    case Num(_) => Some(v)
    case Str(s) => Some(Str(Strip(s)))
  }

  /** The cleaned sample the cascade works on. */
  function Clean(values: seq<Value>): (r: seq<Value>)
    ensures forall j :: 0 <= j < |r| ==> !r[j].Null?
  {
    FilterMap(CleanValue, values)
  }

  /** Only `None` is dropped: a blank string survives cleaning as "". */
  lemma BlankStringSurvives(values: seq<Value>, i: nat)
    requires i < |values| && values[i].Str? && Strip(values[i].s) == ""
    ensures Str("") in Clean(values)
  {
    assert CleanValue(values[i]) == Some(Str(""));
  }

  /** Cleaning drops exactly the `None` cells. */
  lemma {:induction false} CleanLength(values: seq<Value>)
    ensures |Clean(values)| == |values| - Count(IsNull, values)
  {
    if values != [] {
      CleanLength(values[1..]);
    }
  }

  predicate IsNull(v: Value) {
    v.Null?
  }

  /** A sample whose strings are already stripped comes through cleaning unchanged. */
  lemma {:induction false} CleanUnchanged(values: seq<Value>)
    requires forall i :: 0 <= i < |values| ==> !values[i].Null?
    requires forall i :: 0 <= i < |values| && values[i].Str? ==> Strip(values[i].s) == values[i].s
    ensures Clean(values) == values
  {
    if values != [] {
      var v := values[0];
      assert CleanValue(v) == Some(v) by {
        if v.Str? {
          assert Strip(v.s) == v.s;
        }
      }
      CleanUnchanged(values[1..]);
      assert Clean(values) == [v] + Clean(values[1..]);
      assert values == [v] + values[1..];
    }
  }

  // ---------------------------------------------------------- stringification

  /** `str(v)` */
  function Repr(rt: Runtime, v: Value): string
  {
    match v
    case Null => "None"
    case Num(PyInt(i)) => IntToString(i)
    case Num(PyFloat(x)) => rt.floatRepr(x)
    case Str(s) => s
  }

  function ReprFn(rt: Runtime): Value -> string {
    v => Repr(rt, v)
  }

  function LowerReprFn(rt: Runtime): Value -> string {
    v => Lower(Repr(rt, v))
  }

  /** `set(str(v).lower() for v in vs)` */
  function LowerReprs(rt: Runtime, vs: seq<Value>): set<string> {
    Image(LowerReprFn(rt), vs)
  }

  /** `len(set(str(v) for v in vs))` */
  function DistinctCount(rt: Runtime, vs: seq<Value>): nat {
    |Image(ReprFn(rt), vs)|
  }

  // ----------------------------------------------------------- name rules

  const IdIndicators: seq<string> := ["id", "key", "code", "uuid", "guid", "identifier"]

  /** The identifier rule as written: the lower-cased name is "id", or ends with
      "_" + an indicator, or ends with the bare indicator. */
  predicate IsIdName(name: string) {
    var n := Lower(name);
    n == "id" ||
    exists k :: 0 <= k < |IdIndicators| &&
      (EndsWith(n, "_" + IdIndicators[k]) || EndsWith(n, IdIndicators[k]))
  }

  /** The bare-suffix test subsumes the other two: the rule fires exactly when the
      lower-cased name ends with one of the indicators. */
  lemma IdNameIsBareSuffix(name: string)
    ensures IsIdName(name) <==>
      exists k :: 0 <= k < |IdIndicators| && EndsWith(Lower(name), IdIndicators[k])
  {
    var n := Lower(name);
    if n == "id" {
      assert EndsWith(n, IdIndicators[0]);
    }
    forall k | 0 <= k < |IdIndicators| && EndsWith(n, "_" + IdIndicators[k])
      ensures EndsWith(n, IdIndicators[k])
    {
      SuffixOfSuffix(n, "_", IdIndicators[k]);
    }
  }

  lemma SuffixOfSuffix(s: string, p: string, q: string)
    requires EndsWith(s, p + q)
    ensures EndsWith(s, q)
  {
    assert s[|s| - |q|..] == (s[|s| - |p + q|..])[|p|..];
  }

  /** "paid" is an identifier name: it ends with "id". */
  lemma PaidIsIdName()
    ensures IsIdName("paid")
  {
    assert Lower("paid") == "paid";
    assert EndsWith("paid", IdIndicators[0]);
  }

  const BooleanSets: seq<set<string>> :=
    [{"true", "false"}, {"t", "f"}, {"yes", "no"}, {"y", "n"}, {"1", "0"}, {"1.0", "0.0"}]

  /** The lower-cased stringified values fit one of the canonical boolean pairs. */
  predicate IsBooleanSample(strs: set<string>) {
    exists k :: 0 <= k < |BooleanSets| && strs <= BooleanSets[k] && |strs| <= 2
  }

  /** The name suggests tokens or free text. */
  predicate HasTextHint(name: string) {
    var n := Lower(name);
    EndsWith(n, "_tks") || Contains(n, "token") || Contains(n, "text")
  }

  /** A string value with more than three whitespace-separated words. */
  predicate IsMultiWord(v: Value) {
    v.Str? && |Split(v.s)| > 3
  }

  /** The name-hinted text rule: mean length above 20, or more than 30% multi-word values. */
  predicate TextByHint(name: string, vs: seq<Value>, meanLength: Option<real>) {
    HasTextHint(name) &&
    ((meanLength.Some? && meanLength.value > 20.0) || 10 * Count(IsMultiWord, vs) > 3 * |vs|)
  }

  /** The name suggests a category. */
  predicate HasCategoryHint(name: string) {
    var n := Lower(name);
    Contains(n, "category") || Contains(n, "cat_") || StartsWith(n, "cat") || EndsWith(n, "_cat")
  }

  const OrdinalIndicators: seq<string> :=
    ["grade", "level", "tier", "class", "rank", "stage", "step", "education", "year", "rating"]

  predicate HasOrdinalHint(name: string) {
    exists k :: 0 <= k < |OrdinalIndicators| && Contains(Lower(name), OrdinalIndicators[k])
  }

  // --------------------------------------------------------- numeric values

  predicate NotFormatting(c: char) {
    c != ',' && c != '$' && c != '%'
  }

  /** The number a cell contributes to the numeric scan, if any: a string is
      stripped, cleared of ',', '$' and '%', skipped when nothing is left, and
      parsed otherwise; a number is converted to float. */
  function NumericValue(rt: Runtime, v: Value): (r: Option<real>)
    ensures v.Num? && v.n.PyInt? ==> r == Some(v.n.i as real)
    ensures v.Num? && v.n.PyFloat? ==> r == Some(v.n.x)
    ensures v.Null? ==> r.None?
    ensures v.Str? && r.Some? ==> exists c :: c == Filter(NotFormatting, Strip(v.s)) && c != [] && rt.parseFloat(c) == r
    ensures v.Str? && Filter(NotFormatting, Strip(v.s)) == [] ==> r.None?
    ensures v.Str? && Filter(NotFormatting, Strip(v.s)) != [] ==> r == rt.parseFloat(Filter(NotFormatting, Strip(v.s)))
  {
    match v
    case Null => None
    case Num(PyInt(i)) => Some(i as real)
    case Num(PyFloat(x)) => Some(x)
    case Str(s) =>
      var c := Filter(NotFormatting, Strip(s));
      if c == [] then None else rt.parseFloat(c)
  }

  function NumericFn(rt: Runtime): Value -> Option<real> {
    v => NumericValue(rt, v)
  }

  /** The list `numeric_values`, in sample order. */
  function NumericValues(rt: Runtime, vs: seq<Value>): seq<real> {
    FilterMap(NumericFn(rt), vs)
  }

  /** At least 70% of the values are numeric. */
  predicate NumericMajority(rt: Runtime, vs: seq<Value>) {
    10 * |NumericValues(rt, vs)| >= 7 * |vs| && |vs| > 0
  }

  /** Once the numeric majority holds, there is a numeric value, so the numeric
      branch always returns a verdict. */
  lemma NumericMajorityDecides(rt: Runtime, vs: seq<Value>)
    requires NumericMajority(rt, vs)
    ensures NumericValues(rt, vs) != []
  {
  }

  /** `float(x).is_integer()` */
  predicate IsIntegral(x: real) {
    x == x.Floor as real
  }

  predicate AllIntegral(xs: seq<real>) {
    forall i :: 0 <= i < |xs| ==> IsIntegral(xs[i])
  }

  function Distinct<T>(xs: seq<T>): set<T> {
    set x | x in xs
  }

  /** Few distinct integers: the low-cardinality code band. */
  predicate CodeBand(nums: seq<real>) {
    AllIntegral(nums) && |Distinct(nums)| <= 10 && 5 * |Distinct(nums)| < |nums|
  }

  /** Few distinct values: the ordinal band. */
  predicate OrdinalBand(nums: seq<real>) {
    |Distinct(nums)| <= 20 && 10 * |Distinct(nums)| < 3 * |nums|
  }

  /** The verdict of the numeric branch for its list of numbers. */
  function NumericVerdict(nums: seq<real>): (t: ColumnType)
    ensures t == Categorical || t == Ordinal || t == Continuous
    ensures t == Categorical <==> CodeBand(nums)
    ensures t == Ordinal <==> !CodeBand(nums) && OrdinalBand(nums)
  {
    if CodeBand(nums) then Categorical
    else if OrdinalBand(nums) then Ordinal
    else Continuous
  }

  /** Pairwise different numbers never form a band: such a column is continuous. */
  lemma DistinctNumbersContinuous(nums: seq<real>)
    requires |nums| > 0
    requires forall i, j :: 0 <= i < j < |nums| ==> nums[i] != nums[j]
    ensures NumericVerdict(nums) == Continuous
  {
    DistinctAll(nums);
  }

  lemma {:induction false} DistinctAll<T>(xs: seq<T>)
    requires forall i, j :: 0 <= i < j < |xs| ==> xs[i] != xs[j]
    ensures |Distinct(xs)| == |xs|
  {
    if xs != [] {
      var t := xs[1..];
      DistinctAll(t);
      assert Distinct(xs) == {xs[0]} + Distinct(t);
      assert xs[0] !in Distinct(t);
    }
  }

  /** The numeric verdict depends only on which numbers occur how often. */
  lemma NumericVerdictOrderFree(a: seq<real>, b: seq<real>)
    requires multiset(a) == multiset(b)
    ensures NumericVerdict(a) == NumericVerdict(b)
  {
    assert |a| == |multiset(a)| == |b|;
    assert Distinct(a) == Distinct(b) by {
      forall x ensures x in a <==> x in b {
        assert x in a <==> x in multiset(a);
        assert x in b <==> x in multiset(b);
      }
    }
    assert AllIntegral(a) <==> AllIntegral(b) by {
      if AllIntegral(a) {
        forall i | 0 <= i < |b| ensures IsIntegral(b[i]) {
          assert b[i] in multiset(a);
        }
      }
      if AllIntegral(b) {
        forall i | 0 <= i < |a| ensures IsIntegral(a[i]) {
          assert a[i] in multiset(b);
        }
      }
    }
  }

  // --------------------------------------------------------------- dates

  /** One position of a fixed-width date pattern: `\d` or a literal character. */
  datatype PatternItem = AnyDigit | Literal(c: char)

  predicate ItemMatches(p: PatternItem, c: char) {
    match p
    case AnyDigit => IsDigit(c)
    case Literal(l) => c == l
  }

  /** `\d{4}-\d{2}-\d{2}` */
  const IsoDate: seq<PatternItem> :=
    [AnyDigit, AnyDigit, AnyDigit, AnyDigit, Literal('-'), AnyDigit, AnyDigit, Literal('-'), AnyDigit, AnyDigit]

  /** `\d{2}/\d{2}/\d{4}` */
  const SlashDate: seq<PatternItem> :=
    [AnyDigit, AnyDigit, Literal('/'), AnyDigit, AnyDigit, Literal('/'), AnyDigit, AnyDigit, AnyDigit, AnyDigit]

  /** `\d{2}-\d{2}-\d{4}` */
  const DashDate: seq<PatternItem> :=
    [AnyDigit, AnyDigit, Literal('-'), AnyDigit, AnyDigit, Literal('-'), AnyDigit, AnyDigit, AnyDigit, AnyDigit]

  predicate MatchesAt(s: string, i: nat, pat: seq<PatternItem>) {
    i + |pat| <= |s| && forall k :: 0 <= k < |pat| ==> ItemMatches(pat[k], s[i + k])
  }

  /** `re.search(pat, s)` finds a match. */
  predicate Finds(s: string, pat: seq<PatternItem>) {
    exists i: nat :: i + |pat| <= |s| && MatchesAt(s, i, pat)
  }

  predicate LooksLikeDate(rt: Runtime, s: string) {
    Finds(s, IsoDate) || Finds(s, SlashDate) || Finds(s, DashDate) || rt.monthDayYear(s)
  }

  function DateFn(rt: Runtime): Value -> bool {
    (v: Value) => v.Str? && LooksLikeDate(rt, v.s)
  }

  /** The number of string values that contain a date. */
  function DateCount(rt: Runtime, vs: seq<Value>): (n: nat)
    ensures n <= |vs|
  {
    Count(DateFn(rt), vs)
  }

  predicate IsLongText(v: Value) {
    v.Str? && |v.s| > 100
  }

  // -------------------------------------------------------------- cascade

  /** The quantities of a cleaned sample the cascade reads: its size, the
      lower-cased stringified values, the counts of multi-word, numeric, date-like
      and long strings, the verdict of the numeric bands and the number of
      distinct stringified values. */
  datatype Measures = Measures(
    size: nat, lowerReprs: set<string>, multiWords: nat, numeric: nat,
    numericVerdict: ColumnType, dates: nat, distinct: nat, longTexts: nat)

  function MeasuresOf(rt: Runtime, vs: seq<Value>): Measures {
    Measures(|vs|, LowerReprs(rt, vs), Count(IsMultiWord, vs), |NumericValues(rt, vs)|,
      NumericVerdict(NumericValues(rt, vs)), DateCount(rt, vs), DistinctCount(rt, vs),
      Count(IsLongText, vs))
  }

  /** At most 10 distinct values, or fewer than one distinct value per ten. */
  predicate FewDistinct(m: Measures) {
    m.distinct <= 10 || 10 * m.distinct < m.size
  }

  /** At most 30 distinct values, or fewer than three distinct values per ten. */
  predicate ModerateDistinct(m: Measures) {
    m.distinct <= 30 || 10 * m.distinct < 3 * m.size
  }

  /** The cardinality rules: few distinct values, an ordinal name, long text. */
  function CardinalityVerdict(name: string, m: Measures): (t: ColumnType)
    ensures t == Categorical || t == Ordinal || t == Text
    ensures FewDistinct(m) ==> t == Categorical
    ensures t == Ordinal <==> !FewDistinct(m) && ModerateDistinct(m) && HasOrdinalHint(name)
    ensures t == Text <==>
      !FewDistinct(m) && !(ModerateDistinct(m) && HasOrdinalHint(name)) && 5 * m.longTexts > m.size
  {
    var u := m.distinct;
    if u <= 10 || 10 * u < m.size then Categorical
    else if (u <= 30 || 10 * u < 3 * m.size) && HasOrdinalHint(name) then Ordinal
    else if 5 * m.longTexts > m.size then Text
    else Categorical
  }

  /** The column name matters to the cardinality rules only through its ordinal keywords. */
  lemma CardinalityNameOnlyThroughHint(a: string, b: string, m: Measures)
    requires HasOrdinalHint(a) <==> HasOrdinalHint(b)
    ensures CardinalityVerdict(a, m) == CardinalityVerdict(b, m)
  {
  }

  /** Eleven distinct values among two hundred are few enough to be categorical,
      whatever the name and however many values are long. */
  lemma ElevenOfTwoHundred(name: string, m: Measures)
    requires m.distinct == 11 && m.size == 200
    ensures CardinalityVerdict(name, m) == Categorical
  {
  }

  /** The cascade on the measures of a non-empty cleaned sample. */
  function Decide(name: string, m: Measures, meanLength: Option<real>): ColumnType
  {
    if IsIdName(name) then Categorical
    else if IsBooleanSample(m.lowerReprs) then Categorical
    else if HasTextHint(name) && ((meanLength.Some? && meanLength.value > 20.0) || 10 * m.multiWords > 3 * m.size) then Text
    else if HasCategoryHint(name) then Categorical
    else if 10 * m.numeric >= 7 * m.size && m.size > 0 && m.numeric > 0 then m.numericVerdict
    else if 10 * m.dates >= 7 * m.size then Datetime
    else CardinalityVerdict(name, m)
  }

  /** The cascade on a non-empty cleaned sample. */
  function Cascade(rt: Runtime, name: string, vs: seq<Value>, meanLength: Option<real>): ColumnType
  {
    Decide(name, MeasuresOf(rt, vs), meanLength)
  }

  /** No rule about the values fires before the numeric scan. */
  predicate NoEarlyRule(rt: Runtime, name: string, vs: seq<Value>, meanLength: Option<real>) {
    !IsIdName(name) && !IsBooleanSample(LowerReprs(rt, vs)) &&
    !TextByHint(name, vs, meanLength) && !HasCategoryHint(name)
  }

  /** `infer_column_type(name, values, stats)`, with the stats reduced to the
      optional mean string length. */
  function InferColumnType(rt: Runtime, name: string, values: seq<Value>, meanLength: Option<real>): (t: ColumnType)
    ensures Clean(values) == [] ==> t == Categorical
    ensures Clean(values) != [] && IsIdName(name) ==> t == Categorical
    ensures Clean(values) != [] && IsBooleanSample(LowerReprs(rt, Clean(values))) ==> t == Categorical
    ensures Clean(values) != [] && NoEarlyRule(rt, name, Clean(values), meanLength) &&
            NumericMajority(rt, Clean(values)) ==>
      t == NumericVerdict(NumericValues(rt, Clean(values))) && t != Datetime && t != Text
    ensures t == Continuous ==>
      NumericMajority(rt, Clean(values)) &&
      !CodeBand(NumericValues(rt, Clean(values))) && !OrdinalBand(NumericValues(rt, Clean(values)))
    ensures t == Datetime ==>
      !NumericMajority(rt, Clean(values)) && 10 * DateCount(rt, Clean(values)) >= 7 * |Clean(values)|
    ensures t == Ordinal && !NumericMajority(rt, Clean(values)) ==>
      DistinctCount(rt, Clean(values)) > 10 && HasOrdinalHint(name)
    ensures t == Text ==>
      TextByHint(name, Clean(values), meanLength) || 5 * Count(IsLongText, Clean(values)) > |Clean(values)|
    ensures Clean(values) != [] && NoEarlyRule(rt, name, Clean(values), meanLength) &&
            !NumericMajority(rt, Clean(values)) && 10 * DateCount(rt, Clean(values)) < 7 * |Clean(values)| ==>
      t == CardinalityVerdict(name, MeasuresOf(rt, Clean(values)))
    ensures Clean(values) != [] && !IsIdName(name) && !IsBooleanSample(LowerReprs(rt, Clean(values))) &&
            TextByHint(name, Clean(values), meanLength) ==>
      t == Text
    ensures Clean(values) != [] && !IsIdName(name) && !IsBooleanSample(LowerReprs(rt, Clean(values))) &&
            !TextByHint(name, Clean(values), meanLength) && HasCategoryHint(name) ==>
      t == Categorical
    ensures Clean(values) != [] && NoEarlyRule(rt, name, Clean(values), meanLength) &&
            !NumericMajority(rt, Clean(values)) && 10 * DateCount(rt, Clean(values)) >= 7 * |Clean(values)| ==>
      t == Datetime
  {
    var vs := Clean(values);
    if vs == [] then Categorical
    else
      Cascade(rt, name, vs, meanLength)
  }

  /** Every quantity the cascade looks at depends only on the multiset of values. */
  lemma MeasuresOrderFree(rt: Runtime, a: seq<Value>, b: seq<Value>)
    requires multiset(a) == multiset(b)
    ensures |a| == |b|
    ensures LowerReprs(rt, a) == LowerReprs(rt, b)
    ensures Count(IsMultiWord, a) == Count(IsMultiWord, b)
    ensures |NumericValues(rt, a)| == |NumericValues(rt, b)|
    ensures NumericVerdict(NumericValues(rt, a)) == NumericVerdict(NumericValues(rt, b))
    ensures DateCount(rt, a) == DateCount(rt, b)
    ensures DistinctCount(rt, a) == DistinctCount(rt, b)
    ensures Count(IsLongText, a) == Count(IsLongText, b)
    ensures MeasuresOf(rt, a) == MeasuresOf(rt, b)
  {
    assert |a| == |multiset(a)| == |b|;
    PermImage(LowerReprFn(rt), a, b);
    PermCount(IsMultiWord, a, b);
    PermFilterMap(NumericFn(rt), a, b);
    assert |NumericValues(rt, a)| == |multiset(NumericValues(rt, a))| == |NumericValues(rt, b)|;
    NumericVerdictOrderFree(NumericValues(rt, a), NumericValues(rt, b));
    PermCount(DateFn(rt), a, b);
    PermImage(ReprFn(rt), a, b);
    PermCount(IsLongText, a, b);
  }

  /** The verdict does not depend on the order of the cleaned sample. */
  lemma CascadeOrderFree(rt: Runtime, name: string, a: seq<Value>, b: seq<Value>, meanLength: Option<real>)
    requires multiset(a) == multiset(b)
    ensures Cascade(rt, name, a, meanLength) == Cascade(rt, name, b, meanLength)
  {
    MeasuresOrderFree(rt, a, b);
  }

  /** Reordering the sample does not change the inferred type. */
  lemma InferOrderFree(rt: Runtime, name: string, a: seq<Value>, b: seq<Value>, meanLength: Option<real>)
    requires multiset(a) == multiset(b)
    ensures InferColumnType(rt, name, a, meanLength) == InferColumnType(rt, name, b, meanLength)
  {
    PermFilterMap(CleanValue, a, b);
    assert |Clean(a)| == |multiset(Clean(a))| == |Clean(b)|;
    if Clean(a) != [] {
      CascadeOrderFree(rt, name, Clean(a), Clean(b), meanLength);
    }
  }

  /** A sample of only `None` cells is categorical. */
  lemma AllNullIsCategorical(rt: Runtime, name: string, values: seq<Value>, meanLength: Option<real>)
    requires forall i :: 0 <= i < |values| ==> values[i].Null?
    ensures InferColumnType(rt, name, values, meanLength) == Categorical
  {
    CleanLength(values);
    CountAll(IsNull, values);
  }

  // ------------------------------------------------------------- examples

  /** Yes/No answers form a boolean sample, whatever the column is called. */
  lemma YesNoIsCategorical(rt: Runtime, name: string, values: seq<Value>)
    requires values == [Str("Yes"), Str("No"), Str("Yes")]
    ensures InferColumnType(rt, name, values, None) == Categorical
  {
    YesNoClean(values);
    YesNoReprs(rt, values);
    YesNoIsBooleanPair();
    BooleanSampleIsCategorical(rt, name, values, None);
  }

  lemma YesNoIsBooleanPair()
    ensures IsBooleanSample({"yes", "no"})
  {
    assert {"yes", "no"} <= BooleanSets[2];
  }

  lemma BooleanSampleIsCategorical(rt: Runtime, name: string, values: seq<Value>, meanLength: Option<real>)
    requires Clean(values) == values != [] && IsBooleanSample(LowerReprs(rt, values))
    ensures InferColumnType(rt, name, values, meanLength) == Categorical
  {
  }

  lemma YesNoClean(values: seq<Value>)
    requires values == [Str("Yes"), Str("No"), Str("Yes")]
    ensures Clean(values) == values
  {
    StripUnchanged(values[0].s);
    StripUnchanged(values[1].s);
    CleanUnchanged(values);
  }

  lemma YesNoReprs(rt: Runtime, values: seq<Value>)
    requires values == [Str("Yes"), Str("No"), Str("Yes")]
    ensures LowerReprs(rt, values) == {"yes", "no"}
  {
    assert Lower("Yes") == "yes";
    assert Lower("No") == "no";
    assert LowerReprFn(rt)(values[0]) == "yes";
    assert LowerReprFn(rt)(values[1]) == "no";
    assert LowerReprFn(rt)(values[2]) == "yes";
    assert forall y :: y in LowerReprs(rt, values) ==> y == "yes" || y == "no";
  }

  /** Small integer codes under an ordinal name, with too many distinct values
      for both the code band and the ordinal band: continuous. */
  lemma GradeCodesAreContinuous(rt: Runtime)
    requires rt.parseFloat("1") == Some(1.0)
    requires rt.parseFloat("2") == Some(2.0)
    requires rt.parseFloat("3") == Some(3.0)
    ensures InferColumnType(rt, "grade", [Str("1"), Str("2"), Str("1"), Str("3"), Str("2"), Str("1")], None) == Continuous
  {
    var values := [Str("1"), Str("2"), Str("1"), Str("3"), Str("2"), Str("1")];
    GradeName();
    GradeClean();
    GradeNotBoolean(rt);
    GradeNumbers(rt);
    GradeVerdict();
  }

  lemma GradeName()
    ensures !IsIdName("grade") && !HasTextHint("grade") && !HasCategoryHint("grade")
  {
    GradeNotId();
    GradeNoHints();
  }

  lemma GradeLower()
    ensures Lower("grade") == "grade"
  {
  }

  lemma GradeNoIdSuffix()
    ensures forall k :: 0 <= k < |IdIndicators| ==> !EndsWith("grade", IdIndicators[k])
  {
    NotEndsWithAt("grade", "id", 1);
    NotEndsWithAt("grade", "key", 2);
    NotEndsWithAt("grade", "code", 0);
    NotEndsWithAt("grade", "uuid", 3);
    NotEndsWithAt("grade", "guid", 3);
  }

  lemma GradeNotId()
    ensures !IsIdName("grade")
  {
    GradeLower();
    GradeNoIdSuffix();
    IdNameIsBareSuffix("grade");
  }

  lemma GradeNoHints()
    ensures !HasTextHint("grade") && !HasCategoryHint("grade")
  {
    GradeLower();
    NotContainsHead("grade", "token");
    NotContainsHead("grade", "text");
    NotContainsHead("grade", "category");
    NotContainsHead("grade", "cat_");
  }

  lemma GradeClean()
    ensures Clean([Str("1"), Str("2"), Str("1"), Str("3"), Str("2"), Str("1")]) ==
      [Str("1"), Str("2"), Str("1"), Str("3"), Str("2"), Str("1")]
  {
    var values := [Str("1"), Str("2"), Str("1"), Str("3"), Str("2"), Str("1")];
    StripUnchanged(values[0].s);
    StripUnchanged(values[1].s);
    StripUnchanged(values[3].s);
    CleanUnchanged(values);
  }

  lemma GradeNotBoolean(rt: Runtime)
    ensures !IsBooleanSample(LowerReprs(rt, [Str("1"), Str("2"), Str("1"), Str("3"), Str("2"), Str("1")]))
  {
    var values := [Str("1"), Str("2"), Str("1"), Str("3"), Str("2"), Str("1")];
    assert Lower("2") == "2";
    assert LowerReprFn(rt)(values[1]) == "2";
    assert "2" in LowerReprs(rt, values);
  }

  lemma GradeNumbers(rt: Runtime)
    requires rt.parseFloat("1") == Some(1.0)
    requires rt.parseFloat("2") == Some(2.0)
    requires rt.parseFloat("3") == Some(3.0)
    ensures NumericValues(rt, [Str("1"), Str("2"), Str("1"), Str("3"), Str("2"), Str("1")]) ==
      [1.0, 2.0, 1.0, 3.0, 2.0, 1.0]
  {
    var values := [Str("1"), Str("2"), Str("1"), Str("3"), Str("2"), Str("1")];
    var nums := [1.0, 2.0, 1.0, 3.0, 2.0, 1.0];
    forall i | 0 <= i < |values| ensures NumericFn(rt)(values[i]) == Some(nums[i]) {
      var d := values[i].s[0];
      assert values[i].s == [d];
      OneDigitNumber(rt, d, nums[i]);
    }
    FilterMapAllSome(NumericFn(rt), values, nums);
  }

  lemma OneDigitNumber(rt: Runtime, d: char, x: real)
    requires IsDigit(d) && rt.parseFloat([d]) == Some(x)
    ensures NumericValue(rt, Str([d])) == Some(x)
  {
    assert Strip([d]) == [d];
    assert Filter(NotFormatting, [d]) == [d];
  }

  lemma GradeVerdict()
    ensures NumericVerdict([1.0, 2.0, 1.0, 3.0, 2.0, 1.0]) == Continuous
  {
    var nums := [1.0, 2.0, 1.0, 3.0, 2.0, 1.0];
    assert Distinct(nums) == {1.0, 2.0, 3.0};
  }

  /** ISO dates that do not parse as numbers: datetime. */
  lemma IsoDatesAreDatetime(rt: Runtime)
    requires rt.parseFloat("2023-01-15") == None
    requires rt.parseFloat("2023-02-20") == None
    requires rt.parseFloat("2023-03-01") == None
    ensures InferColumnType(rt, "signup_date", [Str("2023-01-15"), Str("2023-02-20"), Str("2023-03-01")], None) == Datetime
  {
    SignupDateName();
    DatesClean();
    DatesNotBoolean(rt);
    DatesNotNumbers(rt);
    DatesCounted(rt);
  }

  lemma SignupDateName()
    ensures !IsIdName("signup_date") && !HasTextHint("signup_date") && !HasCategoryHint("signup_date")
  {
    SignupDateNotId();
    SignupDateNoHints();
  }

  lemma SignupDateLower()
    ensures Lower("signup_date") == "signup_date"
  {
  }

  lemma SignupDateNoIdSuffix()
    ensures forall k :: 0 <= k < |IdIndicators| ==> !EndsWith("signup_date", IdIndicators[k])
  {
    NotEndsWithAt("signup_date", "id", 1);
    NotEndsWithAt("signup_date", "key", 2);
    NotEndsWithAt("signup_date", "code", 0);
    NotEndsWithAt("signup_date", "uuid", 3);
    NotEndsWithAt("signup_date", "guid", 3);
    NotEndsWithAt("signup_date", "identifier", 9);
  }

  lemma SignupDateNotId()
    ensures !IsIdName("signup_date")
  {
    SignupDateLower();
    SignupDateNoIdSuffix();
    IdNameIsBareSuffix("signup_date");
  }

  lemma SignupDateNoHints()
    ensures !HasTextHint("signup_date") && !HasCategoryHint("signup_date")
  {
    SignupDateLower();
    NotContainsHead("signup_date", "token");
    NotContainsHead("signup_date", "text");
    NotContainsHead("signup_date", "category");
    NotContainsHead("signup_date", "cat_");
  }

  lemma DatesClean()
    ensures Clean([Str("2023-01-15"), Str("2023-02-20"), Str("2023-03-01")]) ==
      [Str("2023-01-15"), Str("2023-02-20"), Str("2023-03-01")]
  {
    var values := [Str("2023-01-15"), Str("2023-02-20"), Str("2023-03-01")];
    StripUnchanged(values[0].s);
    StripUnchanged(values[1].s);
    StripUnchanged(values[2].s);
    CleanUnchanged(values);
  }

  lemma DatesNotBoolean(rt: Runtime)
    ensures !IsBooleanSample(LowerReprs(rt, [Str("2023-01-15"), Str("2023-02-20"), Str("2023-03-01")]))
  {
    var values := [Str("2023-01-15"), Str("2023-02-20"), Str("2023-03-01")];
    LongTextNotBoolean(rt, values);
  }

  lemma DatesNotNumbers(rt: Runtime)
    requires rt.parseFloat("2023-01-15") == None
    requires rt.parseFloat("2023-02-20") == None
    requires rt.parseFloat("2023-03-01") == None
    ensures NumericValues(rt, [Str("2023-01-15"), Str("2023-02-20"), Str("2023-03-01")]) == []
  {
    DateValuesNotNumbers(rt, [Str("2023-01-15"), Str("2023-02-20"), Str("2023-03-01")]);
  }

  lemma DateValuesNotNumbers(rt: Runtime, values: seq<Value>)
    requires rt.parseFloat("2023-01-15") == None
    requires rt.parseFloat("2023-02-20") == None
    requires rt.parseFloat("2023-03-01") == None
    requires values == [Str("2023-01-15"), Str("2023-02-20"), Str("2023-03-01")]
    ensures NumericValues(rt, values) == []
  {
    forall i | 0 <= i < |values| ensures NumericFn(rt)(values[i]).None? {
      SampleDateNotNumber(rt, values[i].s);
    }
    FilterMapAllNone(NumericFn(rt), values);
  }

  lemma SampleDateNotNumber(rt: Runtime, s: string)
    requires s == "2023-01-15" || s == "2023-02-20" || s == "2023-03-01"
    requires rt.parseFloat(s) == None
    ensures NumericFn(rt)(Str(s)) == None
  {
    IsoDateNotNumber(rt, s);
  }

  /** A string of digits and dashes is handed to `float()` as it stands. */
  lemma IsoDateNotNumber(rt: Runtime, s: string)
    requires |s| > 0 && forall i :: 0 <= i < |s| ==> IsDigit(s[i]) || s[i] == '-'
    requires rt.parseFloat(s) == None
    ensures NumericFn(rt)(Str(s)) == None
  {
    UnformattedNumber(rt, s);
  }

  /** A string of digits and dashes is parsed as it stands. */
  lemma UnformattedNumber(rt: Runtime, s: string)
    requires |s| > 0 && !IsSpace(s[0]) && !IsSpace(s[|s| - 1])
    requires forall i :: 0 <= i < |s| ==> NotFormatting(s[i])
    ensures NumericValue(rt, Str(s)) == rt.parseFloat(s)
  {
    assert Strip(s) == s;
    FilterAll(NotFormatting, s);
  }

  lemma DatesCounted(rt: Runtime)
    ensures DateCount(rt, [Str("2023-01-15"), Str("2023-02-20"), Str("2023-03-01")]) == 3
  {
    var values := [Str("2023-01-15"), Str("2023-02-20"), Str("2023-03-01")];
    forall i | 0 <= i < |values| ensures DateFn(rt)(values[i]) {
      IsoShaped(values[i].s);
    }
    CountAll(DateFn(rt), values);
  }

  /** Four digits, a dash, two digits, a dash, two digits: the ISO pattern matches. */
  lemma IsoShaped(s: string)
    requires |s| == 10 && s[4] == '-' && s[7] == '-'
    requires forall k :: 0 <= k < 10 && k != 4 && k != 7 ==> IsDigit(s[k])
    ensures Finds(s, IsoDate)
  {
    assert MatchesAt(s, 0, IsoDate);
  }

  /** Many distinct long sentences that are neither numbers nor dates, under a
      neutral name: long text. */
  lemma LongSentencesAreText(rt: Runtime, values: seq<Value>, meanLength: Option<real>)
    requires |values| > 10
    requires forall i :: 0 <= i < |values| ==> values[i].Str? && |values[i].s| > 100
    requires forall i :: 0 <= i < |values| ==> Strip(values[i].s) == values[i].s
    requires forall i, j :: 0 <= i < j < |values| ==> values[i].s != values[j].s
    requires forall i :: 0 <= i < |values| ==> rt.parseFloat(Filter(NotFormatting, values[i].s)).None?
    requires forall i :: 0 <= i < |values| ==> !LooksLikeDate(rt, values[i].s)
    ensures InferColumnType(rt, "comment", values, meanLength) == Text
  {
    CleanUnchanged(values);
    LongTextNotBoolean(rt, values);
    SentencesNotNumbers(rt, values);
    CountNone(DateFn(rt), values);
    SentencesDistinct(rt, values);
    CountAll(IsLongText, values);
    CommentDecides(MeasuresOf(rt, values), meanLength);
  }

  /** The cascade for the name "comment" on long, distinct, non-numeric, non-date text. */
  lemma CommentDecides(m: Measures, meanLength: Option<real>)
    requires m.size > 10 && !IsBooleanSample(m.lowerReprs) && m.numeric == 0 && m.dates == 0
    requires m.distinct == m.size && m.longTexts == m.size
    ensures Decide("comment", m, meanLength) == Text
  {
    CommentName();
  }

  lemma SentencesNotNumbers(rt: Runtime, values: seq<Value>)
    requires forall i :: 0 <= i < |values| ==> values[i].Str? && Strip(values[i].s) == values[i].s
    requires forall i :: 0 <= i < |values| ==> rt.parseFloat(Filter(NotFormatting, values[i].s)).None?
    ensures NumericValues(rt, values) == []
  {
    assert forall i :: 0 <= i < |values| ==> NumericFn(rt)(values[i]).None?;
    FilterMapAllNone(NumericFn(rt), values);
  }

  lemma SentencesDistinct(rt: Runtime, values: seq<Value>)
    requires forall i :: 0 <= i < |values| ==> values[i].Str?
    requires forall i, j :: 0 <= i < j < |values| ==> values[i].s != values[j].s
    ensures DistinctCount(rt, values) == |values|
  {
    assert forall i, j :: 0 <= i < j < |values| ==> ReprFn(rt)(values[i]) != ReprFn(rt)(values[j]);
    ImageSize(ReprFn(rt), values);
  }

  /** Strings longer than the boolean words cannot form a boolean sample. */
  lemma LongTextNotBoolean(rt: Runtime, vs: seq<Value>)
    requires vs != [] && vs[0].Str? && |vs[0].s| > 5
    ensures !IsBooleanSample(LowerReprs(rt, vs))
  {
    var w := Lower(vs[0].s);
    assert LowerReprFn(rt)(vs[0]) == w;
    assert w in LowerReprs(rt, vs);
    BooleanWordsShort();
  }

  lemma BooleanWordsShort()
    ensures forall k, x :: 0 <= k < |BooleanSets| && x in BooleanSets[k] ==> |x| <= 5
  {
  }

  lemma CommentName()
    ensures !IsIdName("comment") && !HasTextHint("comment") && !HasCategoryHint("comment")
    ensures !HasOrdinalHint("comment")
  {
    CommentNotId();
    CommentNoHints();
    CommentNoOrdinalHint();
  }

  lemma CommentLower()
    ensures Lower("comment") == "comment"
  {
  }

  lemma CommentNoIdSuffix()
    ensures forall k :: 0 <= k < |IdIndicators| ==> !EndsWith("comment", IdIndicators[k])
  {
    NotEndsWithAt("comment", "id", 1);
    NotEndsWithAt("comment", "key", 2);
    NotEndsWithAt("comment", "code", 0);
    NotEndsWithAt("comment", "uuid", 3);
    NotEndsWithAt("comment", "guid", 3);
  }

  lemma CommentNotId()
    ensures !IsIdName("comment")
  {
    CommentLower();
    CommentNoIdSuffix();
    IdNameIsBareSuffix("comment");
  }

  lemma CommentNoHints()
    ensures !HasTextHint("comment") && !HasCategoryHint("comment")
  {
    CommentLower();
    NotContainsHead("comment", "token");
    NotContainsHead("comment", "text");
    NotContainsHead("comment", "category");
    NotContainsPair("comment", "cat_");
    NotEndsWithAt("comment", "_tks", 3);
    NotEndsWithAt("comment", "_cat", 0);
    assert !StartsWith("comment", "cat") by {
      assert "comment"[..3][1] != "cat"[1];
    }
  }

  lemma CommentNoOrdinalHint()
    ensures !HasOrdinalHint("comment")
  {
    CommentLower();
    NotContainsHead("comment", "grade");
    NotContainsHead("comment", "level");
    NotContainsHead("comment", "tier");
    NotContainsPair("comment", "class");
    NotContainsHead("comment", "rank");
    NotContainsHead("comment", "stage");
    NotContainsHead("comment", "step");
    NotContainsHead("comment", "education");
    NotContainsHead("comment", "year");
    NotContainsHead("comment", "rating");
  }

  // ---------------------------------------------------- overrides by callers

  predicate IdOverride(header: string) {
    header == "id" || EndsWith(header, "_id")
  }

  predicate CategoryOverride(header: string) {
    StartsWith(header, "category_") || Contains(Lower(header), "category")
  }

  predicate TextOverride(header: string) {
    Contains(header, "combined_tks") || EndsWith(header, "_tks")
  }

  /** The pandas path: infer first, then apply every matching override in turn,
      so the last one that matches decides. */
  function PandasColumnType(header: string, inferred: ColumnType): (t: ColumnType)
    ensures TextOverride(header) ==> t == Text
    ensures !TextOverride(header) && (IdOverride(header) || CategoryOverride(header)) ==> t == Categorical
    ensures !TextOverride(header) && !IdOverride(header) && !CategoryOverride(header) ==> t == inferred
  {
    var t1 := if IdOverride(header) then Categorical else inferred;
    var t2 := if CategoryOverride(header) then Categorical else t1;
    if TextOverride(header) then Text else t2
  }

  /** The fallback CSV path: the first matching override decides, and only
      a header no override matches is inferred. */
  function FallbackColumnType(header: string, inferred: ColumnType): (t: ColumnType)
    ensures IdOverride(header) || CategoryOverride(header) ==> t == Categorical
    ensures !IdOverride(header) && !CategoryOverride(header) && TextOverride(header) ==> t == Text
    ensures !IdOverride(header) && !CategoryOverride(header) && !TextOverride(header) ==> t == inferred
  {
    if IdOverride(header) then Categorical
    else if CategoryOverride(header) then Categorical
    else if TextOverride(header) then Text
    else inferred
  }

  /** The two paths disagree exactly on headers that match a categorical override
      and the text override. */
  lemma OverridePathsDisagree(header: string, inferred: ColumnType)
    ensures PandasColumnType(header, inferred) != FallbackColumnType(header, inferred) <==>
      (IdOverride(header) || CategoryOverride(header)) && TextOverride(header)
  {
  }

  /** "combined_tks_id" ends as text on the pandas path and categorical on the fallback path. */
  lemma CombinedTokensId(inferred: ColumnType)
    ensures PandasColumnType("combined_tks_id", inferred) == Text
    ensures FallbackColumnType("combined_tks_id", inferred) == Categorical
  {
    assert OccursAt("combined_tks_id", "combined_tks", 0);
    assert EndsWith("combined_tks_id", "_id");
  }

}
