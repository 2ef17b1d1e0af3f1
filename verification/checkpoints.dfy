/**
  Checkpoint selection and rotation for artifacts stored in an MLflow run:
  which files count as checkpoints, which one the loaders pick, and which
  ones the rotation helpers delete. Listing, downloading, loading and deleting
  artifacts are left to the caller; here an artifact listing is a sequence of
  (path, is-directory) pairs in the order the tracking server returns them.
 */
module Checkpoints {

  import opened Options
  import opened Chars
  import opened Seqs
  import opened Strings
  import opened Sorting

  /** One entry of an artifact listing. */
  datatype Artifact = Artifact(path: string, isDir: bool)

  /** A resumable checkpoint: the epoch read from its file name and its artifact path. */
  datatype Checkpoint = Checkpoint(epoch: nat, path: string)

  /** A best-model file: the metric value read from its file name and its artifact path. */
  datatype BestModel = BestModel(metric: real, path: string)

  /** What a rotation deletes, and what it leaves in place. */
  datatype Rotation<T> = Rotation(delete: seq<T>, keep: seq<T>)

  /** The longest run of decimal digits of `p` starting at index `k`. */
  function DigitRun(p: string, k: nat): (ds: string)
    requires k <= |p|
    ensures |ds| <= |p| - k && ds == p[k..k + |ds|]
    ensures forall i :: 0 <= i < |ds| ==> IsDigit(ds[i])
    ensures k + |ds| < |p| ==> !IsDigit(p[k + |ds|])
  {
    TakeWhile(IsDigit, p[k..])
  }

  // ---------------------------------------------------------------------------
  // The pattern `epoch_(\d+)`
  // ---------------------------------------------------------------------------

  /** The pattern `epoch_(\d+)` matches `p` at index `j`. */
  predicate EpochMatchAt(p: string, j: nat) {
    j + 7 <= |p| && OccursAt(p, "epoch_", j) && IsDigit(p[j + 6])
  }

  /** The epoch `int()` reads from a match at index `j`: the greedy digit
      group after `epoch_`, leading zeros allowed. */
  function EpochValue(p: string, j: nat): nat
    requires EpochMatchAt(p, j)
  {
    DecimalValue(DigitRun(p, j + 6))
  }

  /** The leftmost match of `epoch_(\d+)` at or after index `i`, read as an epoch. */
  function EpochFrom(p: string, i: nat): Option<nat>
    decreases |p| + 1 - i
  {
    if i > |p| then None
    else if EpochMatchAt(p, i) then Some(EpochValue(p, i))
    else EpochFrom(p, i + 1)
  }

  /** The scan finds nothing exactly when no index from `i` on matches, and
      otherwise reads the epoch at the first index that does. */
  lemma {:induction false} EpochFromLeftmost(p: string, i: nat)
    ensures EpochFrom(p, i).None? <==> forall j :: i <= j <= |p| ==> !EpochMatchAt(p, j)
    ensures EpochFrom(p, i).Some? ==> exists j :: (i <= j <= |p| && EpochMatchAt(p, j)
      && (forall k :: i <= k < j ==> !EpochMatchAt(p, k)) && EpochFrom(p, i).value == EpochValue(p, j))
    decreases |p| + 1 - i
  {
    if i > |p| {
    } else if EpochMatchAt(p, i) {
      assert i <= i <= |p| && EpochMatchAt(p, i) && EpochFrom(p, i).value == EpochValue(p, i);
    } else {
      EpochFromLeftmost(p, i + 1);
      if EpochFrom(p, i + 1).Some? {
        var j :| i + 1 <= j <= |p| && EpochMatchAt(p, j)
          && (forall k :: i + 1 <= k < j ==> !EpochMatchAt(p, k)) && EpochFrom(p, i + 1).value == EpochValue(p, j);
        assert forall k :: i <= k < j ==> !EpochMatchAt(p, k);
      }
    }
  }

  /** `re.search(r"epoch_(\d+)", p)` followed by `int(match.group(1))`: the
      epoch of the leftmost match, or nothing when the pattern does not occur. */
  function EpochOf(p: string): (r: Option<nat>)
    ensures r.None? <==> forall j :: 0 <= j <= |p| ==> !EpochMatchAt(p, j)
    ensures r.Some? ==> exists j :: (0 <= j <= |p| && EpochMatchAt(p, j)
      && (forall k :: 0 <= k < j ==> !EpochMatchAt(p, k)) && r.value == EpochValue(p, j))
  {
    EpochFromLeftmost(p, 0);
    EpochFrom(p, 0)
  }

  /** A zero-padded epoch is read as a decimal: `epoch_0042` gives 42. */
  lemma PaddedEpochIsDecimal()
    ensures EpochOf("epoch_0042.pt") == Some(42)
  {
    var p := "epoch_0042.pt";
    assert p[0..6] == "epoch_";
    assert EpochMatchAt(p, 0);
    PaddedDigits(p);
    PaddedValue();
  }

  lemma PaddedDigits(p: string)
    requires p == "epoch_0042.pt"
    ensures DigitRun(p, 6) == "0042"
  {
    assert "0042" == p[6..][..4] && p[6..][4] == '.';
    TakeWhileUnique(IsDigit, p[6..], "0042");
  }

  lemma PaddedValue()
    ensures DecimalValue("0042") == 42
  {
    assert "0" + "042" == "0042" && "0" + "42" == "042";
    LeadingZero("042");
    LeadingZero("42");
    assert DecimalValue("42") == 42 by {
      assert "42"[..1] == "4";
    }
  }

  /** The checkpoint an artifact stands for, if any: directories and paths
      without an epoch are skipped. */
  function EpochCandidate(a: Artifact): (r: Option<Checkpoint>)
    ensures r.Some? <==> !a.isDir && EpochOf(a.path).Some?
    ensures r.Some? ==> r.value == Checkpoint(EpochOf(a.path).value, a.path)
  {
    if a.isDir then None
    else match EpochOf(a.path)
      case Some(e) => Some(Checkpoint(e, a.path))
      case None => None
  }

  /** The checkpoint list the loaders and `rotate_checkpoints` build, in listing
      order: one entry per non-directory artifact whose path holds an epoch, and nothing else. */
  function EpochCheckpoints(arts: seq<Artifact>): (cs: seq<Checkpoint>)
    ensures |cs| <= |arts|
    ensures forall j :: 0 <= j < |cs| ==> exists i :: 0 <= i < |arts| && EpochCandidate(arts[i]) == Some(cs[j])
    ensures forall i :: 0 <= i < |arts| && EpochCandidate(arts[i]).Some? ==> EpochCandidate(arts[i]).value in cs
  {
    FilterMap(EpochCandidate, arts)
  }

  /** The checkpoint list keeps listing order: a listing in two parts gives the
      checkpoints of the first part, then those of the second. */
  lemma EpochCheckpointsAppend(a: seq<Artifact>, b: seq<Artifact>)
    ensures EpochCheckpoints(a + b) == EpochCheckpoints(a) + EpochCheckpoints(b)
  {
    FilterMapAppend(EpochCandidate, a, b);
  }

  /** Sort key for `sort(key=epoch, reverse=True)`. */
  function NewestFirst(c: Checkpoint): real {
    -(c.epoch as real)
  }

  /** Sort key for `sort(key=epoch)`. */
  function OldestFirst(c: Checkpoint): real {
    c.epoch as real
  }

  /** Entry `i` of `cs` is `c`, no entry has a greater epoch, and every entry
      before it has a smaller one. */
  predicate LatestAt(cs: seq<Checkpoint>, i: int, c: Checkpoint) {
    0 <= i < |cs| && cs[i] == c
    && (forall j :: 0 <= j < |cs| ==> cs[j].epoch <= c.epoch)
    && (forall j :: 0 <= j < i ==> cs[j].epoch < c.epoch)
  }

  /** The checkpoint `load_latest_checkpoint` downloads: the head of the list
      sorted by descending epoch, or nothing when there is no checkpoint. */
  function LatestCheckpoint(cs: seq<Checkpoint>): (r: Option<Checkpoint>)
    ensures r.None? <==> cs == []
    ensures r.Some? ==> exists i :: LatestAt(cs, i, r.value)
  {
    if cs == [] then None
    else
      LatestIsSortedHead(cs);
      Some(SortBy(NewestFirst, cs)[0])
  }

  /** The head of the list sorted by descending epoch is a latest entry, the first listed. */
  lemma LatestIsSortedHead(cs: seq<Checkpoint>)
    requires cs != []
    ensures exists i :: LatestAt(cs, i, SortBy(NewestFirst, cs)[0])
  {
    SortedHead(NewestFirst, cs);
    var i :| 0 <= i < |cs| && SortBy(NewestFirst, cs)[0] == cs[i]
      && (forall j :: 0 <= j < |cs| ==> NewestFirst(cs[i]) <= NewestFirst(cs[j]))
      && (forall j :: 0 <= j < i ==> NewestFirst(cs[i]) < NewestFirst(cs[j]));
    assert LatestAt(cs, i, cs[i]);
  }

  /** The artifact `load_latest_checkpoint` (and `load_latest_checkpoint2`) chooses from a listing:
      a checkpoint artifact with the greatest epoch, and among those the first listed. */
  function SelectLatest(arts: seq<Artifact>): (r: Option<Checkpoint>)
    ensures r.None? <==> forall i :: 0 <= i < |arts| ==> arts[i].isDir || EpochOf(arts[i].path).None?
    ensures r.Some? ==> exists i :: FirstLatestAt(arts, i, r.value)
    ensures r.Some? ==> forall i :: 0 <= i < |arts| && !arts[i].isDir && EpochOf(arts[i].path).Some? ==>
      EpochOf(arts[i].path).value <= r.value.epoch
  {
    LatestOfListing(arts);
    LatestCheckpoint(EpochCheckpoints(arts))
  }

  /** Artifact `i` is the checkpoint `c`, and every checkpoint listed before it has a smaller epoch. */
  predicate FirstLatestAt(arts: seq<Artifact>, i: int, c: Checkpoint) {
    0 <= i < |arts| && EpochCandidate(arts[i]) == Some(c) &&
    forall j :: 0 <= j < i && EpochCandidate(arts[j]).Some? ==> EpochCandidate(arts[j]).value.epoch < c.epoch
  }

  /** An entry of the checkpoint list beaten by nothing in front of it comes from an
      artifact beaten by nothing listed in front of it. */
  lemma LatestListedFirst(arts: seq<Artifact>, k: nat)
    requires k < |EpochCheckpoints(arts)|
    requires var cs := EpochCheckpoints(arts); forall j :: 0 <= j < k ==> cs[j].epoch < cs[k].epoch
    ensures exists i :: FirstLatestAt(arts, i, EpochCheckpoints(arts)[k])
  {
    var cs := EpochCheckpoints(arts);
    var i := FilterMapIndex(EpochCandidate, arts, k);
    forall j | 0 <= j < i && EpochCandidate(arts[j]).Some?
      ensures EpochCandidate(arts[j]).value.epoch < cs[k].epoch
    {
      assert arts[..i][j] == arts[j];
      assert EpochCandidate(arts[j]).value in cs[..k];
    }
    assert FirstLatestAt(arts, i, cs[k]);
  }

  /** What `SelectLatest` promises, proved on its body. */
  lemma LatestOfListing(arts: seq<Artifact>)
    ensures var r := LatestCheckpoint(EpochCheckpoints(arts));
      && (r.None? <==> forall i :: 0 <= i < |arts| ==> arts[i].isDir || EpochOf(arts[i].path).None?)
      && (r.Some? ==> exists i :: FirstLatestAt(arts, i, r.value))
      && (r.Some? ==> forall i :: 0 <= i < |arts| && !arts[i].isDir && EpochOf(arts[i].path).Some? ==>
        EpochOf(arts[i].path).value <= r.value.epoch)
  {
    var cs := EpochCheckpoints(arts);
    var r := LatestCheckpoint(cs);
    NoEpochCheckpoints(arts);
    if r.Some? {
      var k :| LatestAt(cs, k, r.value);
      LatestListedFirst(arts, k);
      EpochBound(arts, r.value.epoch);
    }
  }

  /** The checkpoint list is empty exactly when no artifact is a checkpoint. */
  lemma NoEpochCheckpoints(arts: seq<Artifact>)
    ensures EpochCheckpoints(arts) == [] <==>
      forall i :: 0 <= i < |arts| ==> arts[i].isDir || EpochOf(arts[i].path).None?
  {
    var cs := EpochCheckpoints(arts);
    if cs != [] {
      var i :| 0 <= i < |arts| && EpochCandidate(arts[i]) == Some(cs[0]);
    }
  }

  /** A bound on every entry of the checkpoint list bounds every checkpoint artifact. */
  lemma EpochBound(arts: seq<Artifact>, e: nat)
    requires var cs := EpochCheckpoints(arts); forall j :: 0 <= j < |cs| ==> cs[j].epoch <= e
    ensures forall i :: 0 <= i < |arts| && !arts[i].isDir && EpochOf(arts[i].path).Some? ==>
      EpochOf(arts[i].path).value <= e
  {
    forall i | 0 <= i < |arts| && !arts[i].isDir && EpochOf(arts[i].path).Some?
      ensures EpochOf(arts[i].path).value <= e
    {
      assert EpochCandidate(arts[i]).value in EpochCheckpoints(arts);
    }
  }

  /** Python's reading of a slice bound `k` on a list of length `n`:
      negative bounds count from the end, and bounds are clipped to `[0, n]`. */
  function SliceBound(n: nat, k: int): (b: nat)
    ensures b <= n
    ensures 0 <= k <= n ==> b == k
    ensures k > n ==> b == n
    ensures -(n as int) <= k < 0 ==> b == n + k
    ensures k < -(n as int) ==> b == 0
  {
    if k < 0 then (if n + k < 0 then 0 else n + k) else if k > n then n else k
  }

  /** `rotate_checkpoints`: with more than `maxCheckpoints` checkpoints, sort them by
      ascending epoch and delete the first `count - maxCheckpoints`. */
  function RotateCheckpoints(cs: seq<Checkpoint>, maxCheckpoints: int): (r: Rotation<Checkpoint>)
    ensures |cs| <= maxCheckpoints ==> r.delete == [] && r.keep == cs
    ensures |cs| > maxCheckpoints && maxCheckpoints >= 0 ==>
      |r.delete| == |cs| - maxCheckpoints && |r.keep| == maxCheckpoints
    ensures maxCheckpoints < 0 ==> r.delete == SortBy(OldestFirst, cs) && r.keep == []
    ensures multiset(r.delete) + multiset(r.keep) == multiset(cs)
    ensures forall d, k :: d in r.delete && k in r.keep ==> d.epoch <= k.epoch
    ensures |cs| > maxCheckpoints ==> r.delete + r.keep == SortBy(OldestFirst, cs)
  {
    if |cs| <= maxCheckpoints then Rotation([], cs)
    else
      var sorted := SortBy(OldestFirst, cs);
      var n := SliceBound(|sorted|, |cs| - maxCheckpoints);
      SortedSplit(OldestFirst, sorted, n);
      Rotation(sorted[..n], sorted[n..])
  }


  /** Among checkpoints with the same epoch, rotation deletes the ones listed first. */
  lemma RotationDeletesEarliestOfEachEpoch(cs: seq<Checkpoint>, maxCheckpoints: int, e: nat)
    requires |cs| > maxCheckpoints
    ensures var r := RotateCheckpoints(cs, maxCheckpoints);
      WithKey(OldestFirst, e as real, cs) == WithKey(OldestFirst, e as real, r.delete) + WithKey(OldestFirst, e as real, r.keep)
  {
    var r := RotateCheckpoints(cs, maxCheckpoints);
    WithKeyAppend(OldestFirst, e as real, r.delete, r.keep);
  }

  // ---------------------------------------------------------------------------
  // The pattern `<metric>[_\-]?([0-9]+(?:\.[0-9]+)?)`
  // ---------------------------------------------------------------------------

  predicate IsSeparator(c: char) {
    c == '_' || c == '-'
  }

  /** Where the number group starts when the metric pattern matches `p` at index
      `j`: just after the metric name, or one further when a `_` or `-` follows it. */
  function MetricGroupAt(p: string, metric: string, j: nat): (g: Option<nat>)
    ensures g.Some? ==> OccursAt(p, metric, j) && g.value < |p| && IsDigit(p[g.value])
    ensures g.Some? ==> g.value == j + |metric| || (g.value == j + |metric| + 1 && IsSeparator(p[j + |metric|]))
  {
    if !OccursAt(p, metric, j) then None
    else
      var k := j + |metric|;
      if k + 1 < |p| && IsSeparator(p[k]) && IsDigit(p[k + 1]) then Some(k + 1)
      else if k < |p| && IsDigit(p[k]) then Some(k)
      else None
  }

  /** Ten to the power `n`, the scale of an `n`-digit fraction. */
  function Pow10(n: nat): (r: real)
    ensures r >= 1.0
  {
    if n == 0 then 1.0 else 10.0 * Pow10(n - 1)
  }

  /** A trailing zero in the fraction does not change the value, so "0.50" and
      "0.5" name the same metric. */
  lemma TrailingZeroFraction(ip: string, fp: string)
    requires forall i :: 0 <= i < |ip| ==> IsDigit(ip[i])
    requires forall i :: 0 <= i < |fp| ==> IsDigit(fp[i])
    ensures forall i :: 0 <= i < |fp + "0"| ==> IsDigit((fp + "0")[i])
    ensures DecimalLiteral(ip, fp + "0") == DecimalLiteral(ip, fp)
  {
    var f := fp + "0";
    assert f[..|f| - 1] == fp && f[|f| - 1] == '0';
    assert DecimalValue(f) == DecimalValue(fp) * 10 + DigitValue('0');
    ScaledFraction(DecimalValue(fp) as real, Pow10(|fp|));
  }

  lemma ScaledFraction(x: real, y: real)
    requires y > 0.0
    ensures (x * 10.0) / (10.0 * y) == x / y
  {
  }

  /** The exact value of the decimal literal `ip` or `ip.fp`. */
  function DecimalLiteral(ip: string, fp: string): real
    requires forall i :: 0 <= i < |ip| ==> IsDigit(ip[i])
    requires forall i :: 0 <= i < |fp| ==> IsDigit(fp[i])
  {
    DecimalValue(ip) as real + DecimalValue(fp) as real / Pow10(|fp|)
  }

  /** The value `float()` reads from the number group starting at `g`: the
      greedy integer digits, then `.` and more digits if they follow. */
  function MetricValueAt(p: string, g: nat): real
    requires g < |p| && IsDigit(p[g])
  {
    var ip := DigitRun(p, g);
    var k := g + |ip|;
    if k + 1 < |p| && p[k] == '.' && IsDigit(p[k + 1]) then DecimalLiteral(ip, DigitRun(p, k + 1))
    else DecimalLiteral(ip, "")
  }

  /** The metric pattern matches `p` at index `j`. */
  predicate MetricMatchAt(p: string, metric: string, j: nat) {
    MetricGroupAt(p, metric, j).Some?
  }

  /** The number a match at index `j` reads. */
  function MetricAt(p: string, metric: string, j: nat): real
    requires MetricMatchAt(p, metric, j)
  {
    MetricValueAt(p, MetricGroupAt(p, metric, j).value)
  }

  /** The leftmost match of the metric pattern at or after index `i`, read as a number. */
  function MetricFrom(p: string, metric: string, i: nat): (r: Option<real>)
    ensures r.None? <==> forall j :: i <= j <= |p| ==> !MetricMatchAt(p, metric, j)
    ensures r.Some? ==> exists j :: (i <= j <= |p| && MetricMatchAt(p, metric, j)
      && (forall k :: i <= k < j ==> !MetricMatchAt(p, metric, k)) && r.value == MetricAt(p, metric, j))
    decreases |p| + 1 - i
  {
    if i > |p| then None
    else if MetricMatchAt(p, metric, i) then Some(MetricAt(p, metric, i))
    else MetricFrom(p, metric, i + 1)
  }

  /** `metric_regex.search(p)` followed by `float(match.group(1))`. The
      `ValueError` branch after it cannot be taken: the group is always a valid literal. */
  function MetricOf(p: string, metric: string): (r: Option<real>)
    ensures r.None? <==> forall j :: 0 <= j <= |p| ==> !MetricMatchAt(p, metric, j)
    ensures r.Some? ==> exists j :: (0 <= j <= |p| && MetricMatchAt(p, metric, j)
      && (forall k :: 0 <= k < j ==> !MetricMatchAt(p, metric, k)) && r.value == MetricAt(p, metric, j))
  {
    MetricFrom(p, metric, 0)
  }

  /** The best-model entry an artifact stands for, if any. */
  function MetricCandidate(metric: string, a: Artifact): (r: Option<BestModel>)
    ensures r.Some? <==> !a.isDir && MetricOf(a.path, metric).Some?
    ensures r.Some? ==> r.value == BestModel(MetricOf(a.path, metric).value, a.path)
  {
    if a.isDir then None
    else match MetricOf(a.path, metric)
      case Some(v) => Some(BestModel(v, a.path))
      case None => None
  }

  /** The list `rotate_bestmodels` and `load_best_model` build, in listing order. */
  function MetricCheckpoints(arts: seq<Artifact>, metric: string): (bs: seq<BestModel>)
    ensures |bs| <= |arts|
    ensures forall j :: 0 <= j < |bs| ==> exists i :: 0 <= i < |arts| && MetricCandidate(metric, arts[i]) == Some(bs[j])
    ensures forall i :: 0 <= i < |arts| && MetricCandidate(metric, arts[i]).Some? ==>
      MetricCandidate(metric, arts[i]).value in bs
  {
    FilterMap(a => MetricCandidate(metric, a), arts)
  }

  /** The best-model list keeps listing order. */
  lemma MetricCheckpointsAppend(a: seq<Artifact>, b: seq<Artifact>, metric: string)
    ensures MetricCheckpoints(a + b, metric) == MetricCheckpoints(a, metric) + MetricCheckpoints(b, metric)
  {
    FilterMapAppend(x => MetricCandidate(metric, x), a, b);
  }

  function LowestFirst(b: BestModel): real {
    b.metric
  }

  function HighestFirst(b: BestModel): real {
    -b.metric
  }

  /** The sort key of `sort(key=metric, reverse=maximize)`. */
  function MetricOrder(maximize: bool): BestModel -> real {
    if maximize then HighestFirst else LowestFirst
  }

  /** `b` is at least as good as `c`: no greater metric, or no smaller when maximizing. */
  predicate AtLeastAsGood(maximize: bool, b: BestModel, c: BestModel) {
    if maximize then b.metric >= c.metric else b.metric <= c.metric
  }

  /** Entry `i` of `bs` is `b`, it is at least as good as every entry, and every
      entry before it is worse. */
  predicate BestAt(bs: seq<BestModel>, maximize: bool, i: int, b: BestModel) {
    0 <= i < |bs| && bs[i] == b
    && (forall j :: 0 <= j < |bs| ==> AtLeastAsGood(maximize, b, bs[j]))
    && (forall j :: 0 <= j < i ==> !AtLeastAsGood(maximize, bs[j], b))
  }

  /** The entry `load_best_model` downloads: the lowest metric, or the highest
      when maximizing, the earliest listed on ties; nothing when the list is empty. */
  function BestOf(bs: seq<BestModel>, maximize: bool): (r: Option<BestModel>)
    ensures r.None? <==> bs == []
    ensures r.Some? ==> exists i :: BestAt(bs, maximize, i, r.value)
  {
    if bs == [] then None
    else
      BestIsSortedHead(bs, maximize);
      Some(SortBy(MetricOrder(maximize), bs)[0])
  }

  /** The head of the list sorted by the metric order is a best entry, the first listed. */
  lemma BestIsSortedHead(bs: seq<BestModel>, maximize: bool)
    requires bs != []
    ensures exists i :: BestAt(bs, maximize, i, SortBy(MetricOrder(maximize), bs)[0])
  {
    var key := MetricOrder(maximize);
    SortedHead(key, bs);
    var i :| 0 <= i < |bs| && SortBy(key, bs)[0] == bs[i]
      && (forall j :: 0 <= j < |bs| ==> key(bs[i]) <= key(bs[j]))
      && (forall j :: 0 <= j < i ==> key(bs[i]) < key(bs[j]));
    forall j | 0 <= j < |bs| ensures AtLeastAsGood(maximize, bs[i], bs[j]) {
      KeyIsGood(maximize, bs[i], bs[j]);
    }
    forall j | 0 <= j < i ensures !AtLeastAsGood(maximize, bs[j], bs[i]) {
      KeyIsGood(maximize, bs[i], bs[j]);
    }
    assert BestAt(bs, maximize, i, bs[i]);
  }

  /** A smaller sort key means at least as good, and a strictly smaller one strictly better. */
  lemma KeyIsGood(maximize: bool, a: BestModel, b: BestModel)
    ensures MetricOrder(maximize)(a) <= MetricOrder(maximize)(b) ==> AtLeastAsGood(maximize, a, b)
    ensures MetricOrder(maximize)(a) < MetricOrder(maximize)(b) ==> !AtLeastAsGood(maximize, b, a)
  {
  }

  /** `rotate_bestmodels`: with more than `max` entries, sort by metric (descending
      when maximizing), keep `sorted[:max]` and delete `sorted[max:]`. */
  function RotateBestModels(bs: seq<BestModel>, max: int, maximize: bool): (r: Rotation<BestModel>)
    ensures |bs| <= max ==> r.delete == [] && r.keep == bs
    ensures |bs| > max && max >= 0 ==> |r.keep| == max && |r.delete| == |bs| - max
    ensures max < 0 ==> |r.delete| == if -max <= |bs| then -max else |bs|
    ensures multiset(r.delete) + multiset(r.keep) == multiset(bs)
    ensures forall k, d :: k in r.keep && d in r.delete ==> AtLeastAsGood(maximize, k, d)
    ensures |bs| > max ==> r.keep + r.delete == SortBy(MetricOrder(maximize), bs)
  {
    if |bs| <= max then Rotation([], bs)
    else
      var key := MetricOrder(maximize);
      var sorted := SortBy(key, bs);
      var n := SliceBound(|sorted|, max);
      SortedSplit(key, sorted, n);
      OrderedIsGood(maximize, sorted[..n], sorted[n..]);
      Rotation(sorted[n..], sorted[..n])
  }

  /** Ascending in the sort key means at least as good. */
  lemma OrderedIsGood(maximize: bool, front: seq<BestModel>, back: seq<BestModel>)
    requires forall a, b :: a in front && b in back ==> MetricOrder(maximize)(a) <= MetricOrder(maximize)(b)
    ensures forall k, d :: k in front && d in back ==> AtLeastAsGood(maximize, k, d)
  {
  }


  /** The artifact `load_best_model` chooses from a listing: an entry with the
      best metric, and among those the first listed. */
  function SelectBest(arts: seq<Artifact>, metric: string, maximize: bool): (r: Option<BestModel>)
    ensures r.None? <==> forall i :: 0 <= i < |arts| ==> arts[i].isDir || MetricOf(arts[i].path, metric).None?
    ensures r.Some? ==> exists i :: FirstBestAt(arts, metric, maximize, i, r.value)
    ensures r.Some? ==> forall i :: 0 <= i < |arts| && MetricCandidate(metric, arts[i]).Some? ==>
      AtLeastAsGood(maximize, r.value, MetricCandidate(metric, arts[i]).value)
  {
    BestOfListing(arts, metric, maximize);
    BestOf(MetricCheckpoints(arts, metric), maximize)
  }

  /** Artifact `i` is the entry `b`, and every entry listed before it is worse. */
  predicate FirstBestAt(arts: seq<Artifact>, metric: string, maximize: bool, i: int, b: BestModel) {
    0 <= i < |arts| && MetricCandidate(metric, arts[i]) == Some(b) &&
    forall j :: 0 <= j < i && MetricCandidate(metric, arts[j]).Some? ==>
      !AtLeastAsGood(maximize, MetricCandidate(metric, arts[j]).value, b)
  }

  /** An entry of the best-model list beaten by nothing in front of it comes from an
      artifact beaten by nothing listed in front of it. */
  lemma BestListedFirst(arts: seq<Artifact>, metric: string, maximize: bool, k: nat)
    requires k < |MetricCheckpoints(arts, metric)|
    requires var bs := MetricCheckpoints(arts, metric);
      forall j :: 0 <= j < k ==> !AtLeastAsGood(maximize, bs[j], bs[k])
    ensures exists i :: FirstBestAt(arts, metric, maximize, i, MetricCheckpoints(arts, metric)[k])
  {
    var f := x => MetricCandidate(metric, x);
    var bs := MetricCheckpoints(arts, metric);
    var i := FilterMapIndex(f, arts, k);
    forall j | 0 <= j < i && MetricCandidate(metric, arts[j]).Some?
      ensures !AtLeastAsGood(maximize, MetricCandidate(metric, arts[j]).value, bs[k])
    {
      assert arts[..i][j] == arts[j];
      assert f(arts[..i][j]).Some?;
      assert MetricCandidate(metric, arts[j]).value in bs[..k];
    }
    assert FirstBestAt(arts, metric, maximize, i, bs[k]);
  }

  /** What `SelectBest` promises, proved on its body. */
  lemma BestOfListing(arts: seq<Artifact>, metric: string, maximize: bool)
    ensures var r := BestOf(MetricCheckpoints(arts, metric), maximize);
      && (r.None? <==> forall i :: 0 <= i < |arts| ==> arts[i].isDir || MetricOf(arts[i].path, metric).None?)
      && (r.Some? ==> exists i :: FirstBestAt(arts, metric, maximize, i, r.value))
      && (r.Some? ==> forall i :: 0 <= i < |arts| && MetricCandidate(metric, arts[i]).Some? ==>
        AtLeastAsGood(maximize, r.value, MetricCandidate(metric, arts[i]).value))
  {
    var bs := MetricCheckpoints(arts, metric);
    var r := BestOf(bs, maximize);
    NoMetricCheckpoints(arts, metric);
    if r.Some? {
      var k :| BestAt(bs, maximize, k, r.value);
      BestListedFirst(arts, metric, maximize, k);
      BestBeatsListing(arts, metric, maximize, r.value);
    }
  }

  /** The best-model list is empty exactly when no file path holds the metric. */
  lemma NoMetricCheckpoints(arts: seq<Artifact>, metric: string)
    ensures MetricCheckpoints(arts, metric) == [] <==>
      forall i :: 0 <= i < |arts| ==> arts[i].isDir || MetricOf(arts[i].path, metric).None?
  {
    var bs := MetricCheckpoints(arts, metric);
    if bs != [] {
      var i :| 0 <= i < |arts| && MetricCandidate(metric, arts[i]) == Some(bs[0]);
    }
  }

  /** An entry at least as good as every listed entry is at least as good as every candidate artifact. */
  lemma BestBeatsListing(arts: seq<Artifact>, metric: string, maximize: bool, b: BestModel)
    requires var bs := MetricCheckpoints(arts, metric); forall j :: 0 <= j < |bs| ==> AtLeastAsGood(maximize, b, bs[j])
    ensures forall i :: 0 <= i < |arts| && MetricCandidate(metric, arts[i]).Some? ==>
      AtLeastAsGood(maximize, b, MetricCandidate(metric, arts[i]).value)
  {
    forall i | 0 <= i < |arts| && MetricCandidate(metric, arts[i]).Some?
      ensures AtLeastAsGood(maximize, b, MetricCandidate(metric, arts[i]).value)
    {
      assert MetricCandidate(metric, arts[i]).value in MetricCheckpoints(arts, metric);
    }
  }

}
