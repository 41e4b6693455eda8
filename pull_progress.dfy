/** `pull_model` from utils.py: start a model download and follow its stream of
    progress records until a `success` record or the end of the stream. The HTTP
    exchange is given as the way the connection opened and the sequence of lines it
    streamed, each already classified by what `json.loads` and the field reads do
    with it. Only the integer counter of the progress bar is kept. */
module PullProgress {
  import opened Wrappers

  /** How `urlopen` on `/api/pull` went: it raised, or it gave a response with a status. */
  datatype Opening = Refused | Opened(code: int)

  /** One streamed line: one that `json.loads` rejects (skipped), one whose handling
      raises outside that guard (a read error, a JSON value that is not an object,
      a non-numeric byte count), or a record with its `status` ("" when absent) and
      its optional `digest`, `total` and `completed`. */
  datatype Line =
    | Garbled
    | Raising
    | Record(status: string, digest: Option<string>, total: Option<int>, completed: Option<int>)

  /** The `totals` and `completed` dicts and the progress bar's counter `pbar.n`. */
  datatype Progress = Progress(totals: map<string, int>, completed: map<string, int>, shown: int)

  const Start: Progress := Progress(map[], map[], 0)
  const Complete: int := 100

  predicate IsSuccess(line: Line) {
    line.Record? && line.status == "success"
  }

  /** The record's digest when it is truthy (present and not empty). */
  function DigestOf(line: Line): (r: Option<string>)
    ensures r.Some? ==> line.Record? && r == line.digest && r.value != ""
    ensures line.Record? && line.digest.Some? && line.digest.value != "" ==> r == line.digest
  {
    if line.Record? && line.digest.Some? && line.digest.value != "" then line.digest else None
  }

  function Get(m: map<string, int>, d: string): (r: int) {
    if d in m then m[d] else 0
  }

  function Min(a: int, b: int): (r: int) {
    if a <= b then a else b
  }

  function Max(a: int, b: int): (r: int) {
    if a >= b then a else b
  }

  /** The sum of a map's values. */
  ghost function MapSum(m: map<string, int>): (r: int)
    decreases |m|
  {
    if m == map[] then 0
    else
      var d :| d in m;
      assert (m - {d}).Keys == m.Keys - {d};
      m[d] + MapSum(m - {d})
  }

  /** The sum may take any key first. */
  lemma {:induction false} MapSumRemove(m: map<string, int>, x: string)
    requires x in m
    ensures MapSum(m) == m[x] + MapSum(m - {x})
    decreases |m|
  {
    var y :| y in m && MapSum(m) == m[y] + MapSum(m - {y});
    if y != x {
      assert (m - {y}).Keys == m.Keys - {y};
      assert (m - {x}).Keys == m.Keys - {x};
      MapSumRemove(m - {y}, x);
      MapSumRemove(m - {x}, y);
      assert m - {y} - {x} == m - {x} - {y};
    }
  }

  /** Each digest with a total contributes its completed bytes, at most its total. */
  ghost function Clamped(totals: map<string, int>, completed: map<string, int>): (r: map<string, int>) {
    map d | d in totals :: Min(Get(completed, d), totals[d])
  }

  /** The clamped completed sum never exceeds the total sum, whatever the signs. */
  lemma {:induction false} ClampedSumAtMostTotal(totals: map<string, int>, completed: map<string, int>)
    ensures MapSum(Clamped(totals, completed)) <= MapSum(totals)
    decreases |totals|
  {
    if totals != map[] {
      var d :| d in totals;
      var c := Clamped(totals, completed);
      MapSumRemove(totals, d);
      MapSumRemove(c, d);
      assert c - {d} == Clamped(totals - {d}, completed);
      assert (totals - {d}).Keys == totals.Keys - {d};
      ClampedSumAtMostTotal(totals - {d}, completed);
    }
  }

  /** `int(completed_sum * 100 / total_sum)`: the quotient truncated toward zero
      (computed here on integers, without the float). */
  function Percent(completedSum: int, totalSum: int): (r: int)
    requires totalSum > 0
    ensures completedSum <= totalSum ==> r <= Complete
    ensures completedSum >= 0 ==> 0 <= r && r * totalSum <= completedSum * 100 < (r + 1) * totalSum
    ensures completedSum < 0 ==> r <= 0 && -r * totalSum <= -completedSum * 100 < (-r + 1) * totalSum
  {
    var num := completedSum * 100;
    if num >= 0 then
      QuotientBounds(num, totalSum);
      if completedSum <= totalSum then QuotientAtMost(num, totalSum, Complete); num / totalSum
      else num / totalSum
    else
      QuotientBounds(-num, totalSum);
      -((-num) / totalSum)
  }

  /** The quotient of a non-negative number brackets it between two multiples of the divisor. */
  lemma QuotientBounds(n: int, d: int)
    requires n >= 0 && d > 0
    ensures 0 <= n / d && n / d * d <= n < (n / d + 1) * d
  {
    var q, m := n / d, n % d;
    assert n == d * q + m && 0 <= m < d;
    assert (q + 1) * d == q * d + d;
    if q < 0 {
      assert d * q <= -d by { NonPositiveProduct(d, q + 1); }
    }
  }

  lemma NonPositiveProduct(d: int, k: int)
    requires d > 0 && k <= 0
    ensures d * (k - 1) <= -d
  {
    assert d * (k - 1) == d * k - d;
  }

  /** A non-negative number at most `k` times the divisor has a quotient at most `k`. */
  lemma QuotientAtMost(n: int, d: int, k: int)
    requires 0 <= n <= k * d && d > 0
    ensures n / d <= k
  {
    QuotientBounds(n, d);
    var q := n / d;
    if q > k {
      NextMultiple(k, q, d);
    }
  }

  /** A larger factor gives a product at least one divisor larger. */
  lemma NextMultiple(k: int, q: int, d: int)
    requires k < q && d >= 0
    ensures k * d + d <= q * d
  {
    assert q * d - (k + 1) * d == (q - k - 1) * d;
    assert (k + 1) * d == k * d + d;
  }

  /** What one non-final line does to the dicts and the counter. */
  ghost function Absorb(p: Progress, line: Line): (r: Progress)
    ensures r.shown >= p.shown
    ensures 0 <= p.shown <= Complete ==> r.shown <= Complete
    ensures DigestOf(line).None? ==> r == p
    ensures DigestOf(line).Some? ==>
      var d := DigestOf(line).value;
      && r.totals - {d} == p.totals - {d}
      && r.completed - {d} == p.completed - {d}
      && r.totals == (if line.total.Some? then p.totals[d := line.total.value] else p.totals)
      && r.completed == (if line.completed.Some? then p.completed[d := line.completed.value] else p.completed)
    ensures DigestOf(line).Some? && MapSum(r.totals) <= 0 ==> r.shown == p.shown
    ensures DigestOf(line).Some? && MapSum(r.totals) > 0 ==>
      r.shown == Max(p.shown, Percent(MapSum(Clamped(r.totals, r.completed)), MapSum(r.totals)))
  {
    match DigestOf(line)
    case None => p
    case Some(d) =>
      var totals := if line.total.Some? then p.totals[d := line.total.value] else p.totals;
      var completed := if line.completed.Some? then p.completed[d := line.completed.value] else p.completed;
      var totalSum := MapSum(totals);
      var completedSum := MapSum(Clamped(totals, completed));
      ClampedSumAtMostTotal(totals, completed);
      var shown := if totalSum > 0 && Percent(completedSum, totalSum) > p.shown
                   then Percent(completedSum, totalSum) else p.shown;
      Progress(totals, completed, shown)
  }

  /** The state after the given lines, none of them final. */
  ghost function Replay(p: Progress, lines: seq<Line>): (r: Progress)
  {
    if lines == [] then p else Absorb(Replay(p, lines[..|lines| - 1]), lines[|lines| - 1])
  }

  /** The progress counter never moves back and stays within 0..100. */
  lemma {:induction false} ReplayMonotone(p: Progress, lines: seq<Line>)
    requires 0 <= p.shown <= Complete
    ensures p.shown <= Replay(p, lines).shown <= Complete
  {
    if lines != [] {
      ReplayMonotone(p, lines[..|lines| - 1]);
    }
  }

  function WithoutGarbled(lines: seq<Line>): (r: seq<Line>) {
    if lines == [] then []
    else WithoutGarbled(lines[..|lines| - 1]) + (if lines[|lines| - 1].Garbled? then [] else [lines[|lines| - 1]])
  }

  /** Lines that fail to parse leave no trace in the dicts or the counter. */
  lemma {:induction false} GarbledLinesIgnored(p: Progress, lines: seq<Line>)
    ensures Replay(p, WithoutGarbled(lines)) == Replay(p, lines)
  {
    if lines != [] {
      var init := lines[..|lines| - 1];
      var last := lines[|lines| - 1];
      GarbledLinesIgnored(p, init);
      if !last.Garbled? {
        var w := WithoutGarbled(init) + [last];
        assert WithoutGarbled(lines) == w;
        assert w[..|w| - 1] == WithoutGarbled(init) && w[|w| - 1] == last;
      } else {
        assert WithoutGarbled(lines) == WithoutGarbled(init) + [];
        assert WithoutGarbled(init) + [] == WithoutGarbled(init);
      }
    }
  }

  /** `sum(totals.values())` and `sum(min(completed.get(d, 0), totals[d]) for d in totals)`. */
  method Sums(totals: map<string, int>, completed: map<string, int>) returns (totalSum: int, completedSum: int)
    ensures totalSum == MapSum(totals)
    ensures completedSum == MapSum(Clamped(totals, completed))
    ensures completedSum <= totalSum
  {
    totalSum, completedSum := 0, 0;
    var rest := totals;
    while rest != map[]
      invariant rest.Keys <= totals.Keys
      invariant forall d :: d in rest ==> rest[d] == totals[d]
      invariant totalSum + MapSum(rest) == MapSum(totals)
      invariant completedSum + MapSum(Clamped(rest, completed)) == MapSum(Clamped(totals, completed))
      decreases |rest|
    {
      var d :| d in rest;
      SumsStep(rest, completed, d);
      SmallerWithout(rest, d);
      totalSum := totalSum + rest[d];
      completedSum := completedSum + Min(Get(completed, d), rest[d]);
      rest := rest - {d};
    }
    ClampedSumAtMostTotal(totals, completed);
  }

  lemma ClampedRemove(rest: map<string, int>, completed: map<string, int>, d: string)
    ensures Clamped(rest - {d}, completed) == Clamped(rest, completed) - {d}
  {
    var c := Clamped(rest, completed);
    var c' := Clamped(rest - {d}, completed);
    assert c'.Keys == c.Keys - {d};
  }

  lemma SumsStep(rest: map<string, int>, completed: map<string, int>, d: string)
    requires d in rest
    ensures MapSum(rest) == rest[d] + MapSum(rest - {d})
    ensures MapSum(Clamped(rest, completed)) == Min(Get(completed, d), rest[d]) + MapSum(Clamped(rest - {d}, completed))
  {
    MapSumRemove(rest, d);
    MapSumRemove(Clamped(rest, completed), d);
    ClampedRemove(rest, completed, d);
  }

  lemma SmallerWithout(rest: map<string, int>, d: string)
    requires d in rest
    ensures |rest - {d}| < |rest|
  {
    assert (rest - {d}).Keys == rest.Keys - {d};
  }

  /** The loop body of `pull_model` for a record that is not `success`: a truthy
      digest has its total and completed bytes recorded, and the counter advances to
      the new percentage when that is larger. */
  method Track(p: Progress, line: Line) returns (r: Progress)
    requires line.Record?
    ensures r == Absorb(p, line)
  {
    r := p;
    if line.digest.Some? && line.digest.value != "" {
      var d := line.digest.value;
      var totals, completed, shown := p.totals, p.completed, p.shown;
      if line.total.Some? {
        totals := totals[d := line.total.value];
      }
      if line.completed.Some? {
        completed := completed[d := line.completed.value];
      }
      var totalSum, completedSum := Sums(totals, completed);
      if totalSum > 0 {
        var percent := Percent(completedSum, totalSum);
        if percent > shown {
          shown := percent;
        }
      }
      r := Progress(totals, completed, shown);
    }
  }

  /** `pull_model`: `ok` is its return value, `read` the number of lines it consumed,
      `progress` the dicts and the counter when it returned. */
  method PullModel(opening: Opening, lines: seq<Line>) returns (ok: bool, read: nat, progress: Progress)
    ensures opening != Opened(200) ==> !ok && read == 0 && progress == Start
    ensures read <= |lines|
    ensures ok <==> opening == Opened(200)
                    && exists i :: 0 <= i < |lines| && IsSuccess(lines[i]) && forall j :: 0 <= j < i ==> !lines[j].Raising?
    ensures ok ==> read > 0 && IsSuccess(lines[read - 1])
    ensures forall j :: 0 <= j < read - 1 ==> !IsSuccess(lines[j]) && !lines[j].Raising?
    ensures opening == Opened(200) && read < |lines| ==> read > 0 && (IsSuccess(lines[read - 1]) || lines[read - 1].Raising?)
    ensures opening == Opened(200) ==>
      progress == (var p := Replay(Start, lines[..read - (if ok || (read > 0 && lines[read - 1].Raising?) then 1 else 0)]);
                   if ok then p.(shown := Complete) else p)
    ensures 0 <= progress.shown <= Complete
  {
    if opening != Opened(200) {
      return false, 0, Start;
    }
    var totals: map<string, int> := map[];
    var completed: map<string, int> := map[];
    var shown := 0;
    read := 0;
    while read < |lines|
      invariant read <= |lines|
      invariant forall j :: 0 <= j < read ==> !IsSuccess(lines[j]) && !lines[j].Raising?
      invariant Progress(totals, completed, shown) == Replay(Start, lines[..read])
      invariant 0 <= shown <= Complete
    {
      var line := lines[read];
      assert lines[..read + 1][..read] == lines[..read];
      read := read + 1;
      match line {
        case Garbled =>
        case Raising =>
          assert lines[..read - 1] == lines[..read][..read - 1];
          return false, read, Progress(totals, completed, shown);
        case Record(status, digest, total, done) =>
          if status == "success" {
            return true, read, Progress(totals, completed, Complete);
          }
          var next := Track(Progress(totals, completed, shown), line);
          totals, completed, shown := next.totals, next.completed, next.shown;
      }
    }
    assert lines[..read] == lines;
    return false, read, Progress(totals, completed, shown);
  }

  lemma MapSumSingle(x: string, v: int)
    ensures MapSum(map[x := v]) == v
  {
    MapSumRemove(map[x := v], x);
    assert map[x := v] - {x} == map[];
  }

  lemma MapSumPair(x: string, y: string, vx: int, vy: int)
    requires x != y
    ensures MapSum(map[x := vx, y := vy]) == vx + vy
  {
    MapSumRemove(map[x := vx, y := vy], x);
    assert map[x := vx, y := vy] - {x} == map[y := vy];
    MapSumSingle(y, vy);
  }

  lemma ExampleFirst()
    ensures Absorb(Start, Record("pulling", Some("a"), Some(100), Some(50)))
         == Progress(map["a" := 100], map["a" := 50], 50)
  {
    MapSumSingle("a", 100);
    MapSumSingle("a", 50);
    assert map[]["a" := 100] == map["a" := 100] && map[]["a" := 50] == map["a" := 50];
    assert Clamped(map["a" := 100], map["a" := 50]) == map["a" := 50];
    assert Percent(50, 100) == 50;
  }

  lemma ExampleSecond()
    ensures Absorb(Progress(map["a" := 100], map["a" := 50], 50), Record("pulling", Some("b"), Some(100), Some(100)))
         == Progress(map["a" := 100, "b" := 100], map["a" := 50, "b" := 100], 75)
  {
    MapSumPair("a", "b", 100, 100);
    MapSumPair("a", "b", 50, 100);
    assert Clamped(map["a" := 100, "b" := 100], map["a" := 50, "b" := 100]) == map["a" := 50, "b" := 100];
    assert Percent(150, 200) == 75;
  }

  lemma ExampleThird()
    ensures Absorb(Progress(map["a" := 100, "b" := 100], map["a" := 50, "b" := 100], 75),
                   Record("pulling", Some("a"), Some(100), Some(100))).shown == Complete
  {
    MapSumPair("a", "b", 100, 100);
    assert map["a" := 100, "b" := 100]["a" := 100] == map["a" := 100, "b" := 100];
    assert map["a" := 50, "b" := 100]["a" := 100] == map["a" := 100, "b" := 100];
    assert Clamped(map["a" := 100, "b" := 100], map["a" := 100, "b" := 100]) == map["a" := 100, "b" := 100];
    assert Percent(200, 200) == 100;
  }

  /** Layer `a` half done, then layer `b` done, then layer `a` done: the counter
      shows 50, then 75, then 100. */
  lemma ExampleTwoLayers()
    ensures var r1 := Record("pulling", Some("a"), Some(100), Some(50));
            var r2 := Record("pulling", Some("b"), Some(100), Some(100));
            var r3 := Record("pulling", Some("a"), Some(100), Some(100));
      && Replay(Start, [r1]).shown == 50
      && Replay(Start, [r1, r2]).shown == 75
      && Replay(Start, [r1, r2, r3]).shown == Complete
  {
    var r1 := Record("pulling", Some("a"), Some(100), Some(50));
    var r2 := Record("pulling", Some("b"), Some(100), Some(100));
    var r3 := Record("pulling", Some("a"), Some(100), Some(100));
    assert [r1, r2, r3][..2] == [r1, r2];
    assert [r1, r2][..1] == [r1];
    assert [r1][..0] == [];
    ExampleFirst();
    ExampleSecond();
    ExampleThird();
  }
}
