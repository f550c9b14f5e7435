/**
 * What the validation driver derives from one row of its queue table, with
 * the browser abstracted away: where the row sits, the year cutoff, the
 * category map, the padded certificate number, the surname candidates, the
 * order of records-portal lookups, the `.tif` rename and the paginator rule.
 */
module Records {
  import opened Wrappers
  import opened Text
  import opened AdaPortal

  const CertsPerPage: nat := 10
  /** Records dated after this year end the batch. */
  const MaxYear: int := 2017
  /** Certificate numbers are left-padded with '0' to this width. */
  const NumberWidth: nat := 4

  /** One row of the queue table: the visible texts of its cells. */
  type Row = seq<string>

  /** The ways reading a row raises an exception out of the per-record step. */
  datatype RecordError =
    | RowMissing    // certs[index_within_page]: IndexError
    | CellMissing   // cells[k]: IndexError
    | YearNotInt    // int(year): ValueError
    | NoSurname     // name.split()[-1] on a blank name: IndexError
    | NumberNotInt  // int(number): ValueError

  // ---------------------------------------------------------------------------
  // Queue position

  datatype Position = Position(page: nat, row: nat)

  /** The page (counted from 1) and the row within it that show queue entry `index`. */
  function Locate(index: nat): (at: Position)
    ensures at.page >= 1 && at.row < CertsPerPage
    ensures (at.page - 1) * CertsPerPage + at.row == index
  {
    Position(index / CertsPerPage + 1, index % CertsPerPage)
  }

  /** The rows a page of the paginated queue shows. */
  function PageRows(queue: seq<Row>, page: nat): (rows: seq<Row>)
    requires page >= 1
  {
    var lo := (page - 1) * CertsPerPage;
    if lo >= |queue| then []
    else if lo + CertsPerPage <= |queue| then queue[lo..lo + CertsPerPage]
    else queue[lo..]
  }

  /** The row picked on the located page is the queue entry at `index`, and exists exactly when that entry does. */
  lemma LocateRow(queue: seq<Row>, index: nat)
    ensures Locate(index).row < |PageRows(queue, Locate(index).page)| <==> index < |queue|
    ensures index < |queue| ==> PageRows(queue, Locate(index).page)[Locate(index).row] == queue[index]
  {
    var at := Locate(index);
    var lo := (at.page - 1) * CertsPerPage;
    assert lo + at.row == index;
  }

  // ---------------------------------------------------------------------------
  // Year, category, number

  /** `text[-4:]`: the last four characters, or all of a shorter text. */
  function YearText(cell: string): (year: string)
    ensures |year| == if |cell| < 4 then |cell| else 4
    ensures year == cell[|cell| - |year|..]
  {
    if |cell| <= 4 then cell else cell[|cell| - 4..]
  }

  /**
   * The queue's category names mapped to the portal's certificate kinds
   * ("…akte" = certificate); any other category has none.
   */
  function MapCategory(category: string): (kind: Option<string>)
    ensures kind.Some? <==> category == "Huwelijk" || category == "Overlijden" || category == "Geboorte"
    ensures category == "Huwelijk" ==> kind == Some("Huwelijksakte")
    ensures category == "Overlijden" ==> kind == Some("Overlijdensakte")
    ensures category == "Geboorte" ==> kind == Some("Geboorteakte")
  {
    if category == "Huwelijk" then Some("Huwelijksakte")
    else if category == "Overlijden" then Some("Overlijdensakte")
    else if category == "Geboorte" then Some("Geboorteakte")
    else None
  }

  /**
   * The certificate number to search for: the cell's own text left-padded
   * with '0' when its value is positive, absent otherwise; a cell that is no
   * integer is an error.
   */
  function CertNumber(cell: string): (r: Result<Option<string>, RecordError>)
    ensures r.Err? <==> ParseInt(cell).None?
    ensures r.Err? ==> r.error == NumberNotInt
    ensures r.Ok? ==> (r.value.Some? <==> ParseInt(cell).value > 0)
    ensures r.Ok? && r.value.Some? ==>
      var padded := r.value.value;
      && |padded| == (if |cell| >= NumberWidth then |cell| else NumberWidth)
      && padded[|padded| - |cell|..] == cell
      && forall i :: 0 <= i < |padded| - |cell| ==> padded[i] == '0'
  {
    match ParseInt(cell)
    case None => Err(NumberNotInt)
    case Some(v) => if v > 0 then Ok(Some(RJust(cell, NumberWidth, '0'))) else Ok(None)
  }

  /** For a cell of plain digits, the padded number still reads as the same value. */
  lemma PaddedNumberKeepsValue(cell: string)
    requires cell != [] && AllDigits(cell) && DigitsValue(cell) > 0
    ensures CertNumber(cell).Ok? && CertNumber(cell).value.Some?
    ensures ParseInt(CertNumber(cell).value.value) == ParseInt(cell)
  {
    ParseDigits(cell);
    var z := if |cell| >= NumberWidth then 0 else NumberWidth - |cell|;
    var padded := RJust(cell, NumberWidth, '0');
    assert padded == Repeat('0', z) + cell;
    LeadingZeros(z, cell);
    ParseDigits(padded);
  }

  // ---------------------------------------------------------------------------
  // Surnames and search candidates

  /** The surnames `names` followed by those of `rest`, or the error of `rest`. */
  function AfterNames(names: seq<string>, rest: Result<seq<string>, RecordError>): Result<seq<string>, RecordError> {
    match rest
    case Err(e) => Err(e)
    case Ok(ws) => Ok(names + ws)
  }

  /** Taking the surnames one at a time: adding one to those before, or in front of those after, is the same. */
  lemma AfterNamesStep(names: seq<string>, w: string, rest: Result<seq<string>, RecordError>)
    ensures AfterNames(names, AfterNames([w], rest)) == AfterNames(names + [w], rest)
  {
    if rest.Ok? {
      assert names + ([w] + rest.value) == (names + [w]) + rest.value;
    }
  }

  /** The last word of every name, failing at the first blank one. */
  function SurnamesOf(names: seq<string>): Result<seq<string>, RecordError>
    decreases |names|
  {
    if names == [] then Ok([])
    else
      match LastWord(names[0])
      case None => Err(NoSurname)
      case Some(w) => AfterNames([w], SurnamesOf(names[1..]))
  }

  /**
   * The surnames fail exactly when some name is blank, and then as
   * `NoSurname`; otherwise there is one per name, its last word.
   */
  lemma {:induction false} SurnamesOfSpec(names: seq<string>)
    ensures var r := SurnamesOf(names);
      && (r.Err? <==> exists k :: 0 <= k < |names| && LastWord(names[k]).None?)
      && (r.Err? ==> r.error == NoSurname)
      && (r.Ok? ==> |r.value| == |names| && forall k :: 0 <= k < |names| ==> LastWord(names[k]) == Some(r.value[k]))
    decreases |names|
  {
    if names != [] && LastWord(names[0]).Some? {
      var tail := names[1..];
      SurnamesOfSpec(tail);
      if SurnamesOf(tail).Err? {
        var k :| 0 <= k < |tail| && LastWord(tail[k]).None?;
        assert names[k + 1] == tail[k];
      } else {
        var r := SurnamesOf(names).value;
        forall k | 0 <= k < |names|
          ensures LastWord(names[k]) == Some(r[k])
        {
          if k > 0 {
            assert names[k] == tail[k - 1] && r[k] == SurnamesOf(tail).value[k - 1];
          }
        }
        forall k | 0 <= k < |names| && LastWord(names[k]).None?
          ensures false
        {
        }
      }
    }
  }

  /** The surnames of the comma-separated persons of a names cell. */
  function Surnames(cell: string): Result<seq<string>, RecordError> {
    SurnamesOf(Split(cell, ','))
  }

  /** A name to search for: one surname, or a pair of surnames. */
  datatype Candidate = Single(surname: string) | Pair(first: string, second: string)

  /** The search text: a pair is its two surnames joined by one space. */
  function SearchName(c: Candidate): string {
    match c
    case Single(s) => s
    case Pair(a, b) => a + " " + b
  }

  predicate LexLess(p: (nat, nat), q: (nat, nat)) {
    p.0 < q.0 || (p.0 == q.0 && p.1 < q.1)
  }

  /** The number of ways to pick two of n persons: the last one with each earlier one, and so on down. */
  function PairCount(n: nat): nat {
    if n == 0 then 0 else (n - 1) + PairCount(n - 1)
  }

  /** The count of pairs is n(n-1)/2. */
  lemma {:induction false} PairCountClosedForm(n: nat)
    ensures PairCount(n) == n * (n - 1) / 2
  {
    if n > 0 {
      PairCountClosedForm(n - 1);
      assert n * (n - 1) == 2 * (n - 1) + (n - 1) * (n - 2);
    }
  }

  /** The pairs (i, j), i < j < n, with a given first index, by second index. */
  function PairRow(i: nat, n: nat): (row: seq<(nat, nat)>)
    requires i < n
    ensures |row| == n - 1 - i
    ensures forall k :: 0 <= k < |row| ==> row[k] == (i, i + 1 + k)
  {
    seq(n - 1 - i, k requires 0 <= k < n - 1 - i => (i, i + 1 + k))
  }

  /**
   * `itertools.combinations(range(n), 2)` restricted to first indices from
   * `i` on: PairCount(n - i) pairs, each increasing and below n.
   */
  function PairsFrom(i: nat, n: nat): (ps: seq<(nat, nat)>)
    ensures |ps| == if i >= n then 0 else PairCount(n - i)
    ensures forall k :: 0 <= k < |ps| ==> i <= ps[k].0 < ps[k].1 < n
    decreases n - i
  {
    if i >= n then []
    else
      PairRow(i, n) + PairsFrom(i + 1, n)
  }

  /** Every increasing pair below n occurs. */
  lemma {:induction false} PairsFromComplete(i: nat, n: nat, a: nat, b: nat)
    requires i <= a < b < n
    ensures exists k :: 0 <= k < |PairsFrom(i, n)| && PairsFrom(i, n)[k] == (a, b)
    decreases n - i
  {
    var row := PairRow(i, n);
    var all := PairsFrom(i, n);
    assert all == row + PairsFrom(i + 1, n);
    if a == i {
      assert all[b - i - 1] == (a, b);
    } else {
      PairsFromComplete(i + 1, n, a, b);
      var rest := PairsFrom(i + 1, n);
      var k :| 0 <= k < |rest| && rest[k] == (a, b);
      assert all[|row| + k] == (a, b);
    }
  }

  /** The pairs come in strictly increasing lexicographic order. */
  lemma {:induction false} PairsFromSorted(i: nat, n: nat)
    ensures forall k1, k2 :: 0 <= k1 < k2 < |PairsFrom(i, n)| ==> LexLess(PairsFrom(i, n)[k1], PairsFrom(i, n)[k2])
    decreases n - i
  {
    if i < n {
      PairsFromSorted(i + 1, n);
      var row := PairRow(i, n);
      var rest := PairsFrom(i + 1, n);
      var all := PairsFrom(i, n);
      assert all == row + rest;
      forall k1, k2 | 0 <= k1 < k2 < |all| ensures LexLess(all[k1], all[k2]) {
        if k2 < |row| {
          assert all[k1] == row[k1] && all[k2] == row[k2];
        } else if k1 < |row| {
          assert all[k1] == row[k1] && all[k2] == rest[k2 - |row|];
        } else {
          assert all[k1] == rest[k1 - |row|] && all[k2] == rest[k2 - |row|];
        }
      }
    }
  }

  /** The last pair is (n-2, n-1). */
  lemma {:induction false} PairsFromLast(i: nat, n: nat)
    requires i + 2 <= n
    ensures PairsFrom(i, n)[|PairsFrom(i, n)| - 1] == (n - 2, n - 1)
    decreases n - i
  {
    var row := PairRow(i, n);
    var rest := PairsFrom(i + 1, n);
    assert PairsFrom(i, n) == row + rest;
    if i + 2 < n {
      PairsFromLast(i + 1, n);
    } else {
      assert rest == PairRow(i + 1, n) + PairsFrom(i + 2, n);
    }
  }

  /** `combinations(surnames, 2)` as pairs of candidates. */
  function Combinations(surnames: seq<string>): (pairs: seq<Candidate>)
    ensures |pairs| == PairCount(|surnames|)
    ensures forall k :: 0 <= k < |pairs| ==>
      pairs[k] == Pair(surnames[PairsFrom(0, |surnames|)[k].0], surnames[PairsFrom(0, |surnames|)[k].1])
  {
    var ix := PairsFrom(0, |surnames|);
    seq(|ix|, k requires 0 <= k < |ix| => Pair(surnames[ix[k].0], surnames[ix[k].1]))
  }

  function Reverse<T>(xs: seq<T>): (r: seq<T>)
    ensures |r| == |xs| && forall k :: 0 <= k < |xs| ==> r[k] == xs[|xs| - 1 - k]
  {
    seq(|xs|, k requires 0 <= k < |xs| => xs[|xs| - 1 - k])
  }

  /** The single surnames, in the order the persons are listed. */
  function Singles(surnames: seq<string>): (singles: seq<Candidate>)
    ensures |singles| == |surnames| && forall k :: 0 <= k < |surnames| ==> singles[k] == Single(surnames[k])
  {
    seq(|surnames|, k requires 0 <= k < |surnames| => Single(surnames[k]))
  }

  /**
   * The names to search for, in search order: the surnames followed by every
   * pair of them, reversed. So all pairs come first and the single surnames
   * close the list, last person first.
   */
  function Candidates(surnames: seq<string>): (c: seq<Candidate>)
    ensures |c| == |surnames| + PairCount(|surnames|)
    ensures forall k :: 0 <= k < PairCount(|surnames|) ==> c[k].Pair?
    ensures forall k :: PairCount(|surnames|) <= k < |c| ==> c[k] == Single(surnames[|c| - 1 - k])
  {
    Reverse(Singles(surnames) + Combinations(surnames))
  }

  /** n surnames give n + n(n-1)/2 candidates. */
  lemma CandidateCount(surnames: seq<string>)
    ensures |Candidates(surnames)| == |surnames| + |surnames| * (|surnames| - 1) / 2
  {
    PairCountClosedForm(|surnames|);
  }

  /** The search starts with the pair of the last two persons. */
  lemma LastPairFirst(surnames: seq<string>)
    requires |surnames| >= 2
    ensures Candidates(surnames)[0] == Pair(surnames[|surnames| - 2], surnames[|surnames| - 1])
  {
    var n := |surnames|;
    PairsFromLast(0, n);
    var all := Singles(surnames) + Combinations(surnames);
    assert Candidates(surnames)[0] == all[|all| - 1];
  }

  /** Every pair of distinct persons, taken in list order, is one of the combinations. */
  lemma CombinationsComplete(surnames: seq<string>, i: nat, j: nat)
    requires i < j < |surnames|
    ensures exists k :: 0 <= k < |Combinations(surnames)| && Combinations(surnames)[k] == Pair(surnames[i], surnames[j])
  {
    var ix := PairsFrom(0, |surnames|);
    PairsFromComplete(0, |surnames|, i, j);
    var k :| 0 <= k < |ix| && ix[k] == (i, j);
    assert Combinations(surnames)[k] == Pair(surnames[i], surnames[j]);
  }

  /** Every pair of distinct persons, taken in list order, is searched for among the pairs. */
  lemma CandidatePairs(surnames: seq<string>, i: nat, j: nat)
    requires i < j < |surnames|
    ensures exists k :: 0 <= k < PairCount(|surnames|) && Candidates(surnames)[k] == Pair(surnames[i], surnames[j])
  {
    var pairs := Combinations(surnames);
    CombinationsComplete(surnames, i, j);
    var k :| 0 <= k < |pairs| && pairs[k] == Pair(surnames[i], surnames[j]);
    var at := |pairs| - 1 - k;
    CandidatePairAt(surnames, at);
    assert Candidates(surnames)[at] == Pair(surnames[i], surnames[j]);
  }

  /** Reversing a concatenation reads its second part back to front first. */
  lemma ReverseConcatAt<T>(a: seq<T>, b: seq<T>, j: nat)
    requires j < |b|
    ensures Reverse(a + b)[|b| - 1 - j] == b[j]
  {
    assert (a + b)[|a| + j] == b[j];
  }

  /** The pairs are searched in reverse `combinations` order: of m pairs, position k holds pair m-1-k. */
  lemma CandidatePairAt(surnames: seq<string>, k: nat)
    requires k < PairCount(|surnames|)
    ensures Candidates(surnames)[k] == Combinations(surnames)[|Combinations(surnames)| - 1 - k]
  {
    var pairs := Combinations(surnames);
    ReverseConcatAt(Singles(surnames), pairs, |pairs| - 1 - k);
  }

  /** Pairs are searched in reverse lexicographic order of their indices. */
  lemma CandidatePairsOrdered(surnames: seq<string>, k1: nat, k2: nat)
    requires k1 < k2 < PairCount(|surnames|)
    ensures var ix := PairsFrom(0, |surnames|); var m := PairCount(|surnames|);
      LexLess(ix[m - 1 - k2], ix[m - 1 - k1])
  {
    var ix := PairsFrom(0, |surnames|);
    var m := PairCount(|surnames|);
    PairsFromSorted(0, |surnames|);
    assert 0 <= m - 1 - k2 < m - 1 - k1 < |ix|;
  }

  // ---------------------------------------------------------------------------
  // The order of lookups

  /** The lookups for one candidate: its name alone, then name and number when there is a number. */
  function NameStep(category: string, year: string, c: Candidate, number: Option<string>): (step: seq<Query>)
    ensures |step| == if number.Some? then 2 else 1
  {
    [Query(category, year, Some(SearchName(c)), None)]
    + (if number.Some? then [Query(category, year, Some(SearchName(c)), number)] else [])
  }

  /** The lookups for a list of candidates, candidate by candidate. */
  function NameSteps(category: string, year: string, candidates: seq<Candidate>, number: Option<string>): (steps: seq<Query>)
    ensures |steps| == if number.Some? then 2 * |candidates| else |candidates|
    decreases |candidates|
  {
    if candidates == [] then []
    else NameStep(category, year, candidates[0], number) + NameSteps(category, year, candidates[1..], number)
  }

  /** The lookups for consecutive runs of candidates follow each other. */
  lemma {:induction false} NameStepsAppend(category: string, year: string, a: seq<Candidate>, b: seq<Candidate>, number: Option<string>)
    ensures NameSteps(category, year, a + b, number) == NameSteps(category, year, a, number) + NameSteps(category, year, b, number)
    decreases |a|
  {
    if a != [] {
      assert (a + b)[1..] == a[1..] + b;
      NameStepsAppend(category, year, a[1..], b, number);
    } else {
      assert a + b == b;
    }
  }

  /**
   * Every lookup the driver may try, in order: the number alone first when
   * there is a number; then, per candidate, the name alone and, when there is
   * a number, name and number.
   */
  function LookupPlan(category: string, year: string, candidates: seq<Candidate>, number: Option<string>): (plan: seq<Query>)
    ensures |plan| == if number.Some? then 1 + 2 * |candidates| else |candidates|
  {
    (if number.Some? then [Query(category, year, None, number)] else [])
    + NameSteps(category, year, candidates, number)
  }

  /** The index of the first true entry. */
  function FirstTrue(bs: seq<bool>): (r: Option<nat>)
    ensures r.Some? ==> r.value < |bs| && bs[r.value] && forall i :: 0 <= i < r.value ==> !bs[i]
    ensures r.None? ==> forall i :: 0 <= i < |bs| ==> !bs[i]
    decreases |bs|
  {
    if bs == [] then None
    else if bs[0] then Some(0)
    else
      match FirstTrue(bs[1..])
      case None => None
      case Some(k) => Some(k + 1)
  }

  /** The lookups of a plan that find a certificate. */
  function Hits(plan: seq<Query>, lookup: Lookup): (hits: seq<bool>)
    ensures |hits| == |plan| && forall k :: 0 <= k < |plan| ==> hits[k] == lookup(plan[k]).Some?
  {
    seq(|plan|, k requires 0 <= k < |plan| => lookup(plan[k]).Some?)
  }

  datatype SearchOutcome = SearchOutcome(image: Option<string>, tried: seq<Query>)

  /**
   * Running a plan until the first lookup that finds a certificate: the
   * lookups tried are a prefix of the plan, all but the last of them failed,
   * and the image is what the last one found; with no hit the whole plan was
   * tried in vain.
   */
  function Search(plan: seq<Query>, lookup: Lookup): (s: SearchOutcome)
    ensures |s.tried| <= |plan| && s.tried == plan[..|s.tried|]
    ensures forall k :: 0 <= k < |s.tried| - 1 ==> lookup(s.tried[k]).None?
    ensures s.image.Some? <==> exists k :: 0 <= k < |plan| && lookup(plan[k]).Some?
    ensures s.image.Some? ==> s.tried != [] && s.image == lookup(s.tried[|s.tried| - 1])
    ensures s.image.None? ==> s.tried == plan
  {
    match FirstTrue(Hits(plan, lookup))
    case None => SearchOutcome(None, plan)
    case Some(k) => SearchOutcome(lookup(plan[k]), plan[..k + 1])
  }

  /** A search whose first n lookups failed ends at lookup n if that one hits, and finds nothing if there is none. */
  lemma SearchStopsAt(plan: seq<Query>, lookup: Lookup, n: nat)
    requires n <= |plan|
    requires forall t :: 0 <= t < n ==> lookup(plan[t]).None?
    ensures n == |plan| ==> Search(plan, lookup) == SearchOutcome(None, plan)
    ensures n < |plan| && lookup(plan[n]).Some? ==> Search(plan, lookup) == SearchOutcome(lookup(plan[n]), plan[..n + 1])
  {
    var hits := Hits(plan, lookup);
    match FirstTrue(hits)
    case None =>
      if n < |plan| { assert !hits[n]; }
    case Some(k) =>
      assert hits[k];
      assert k >= n;
      if n < |plan| && lookup(plan[n]).Some? { assert hits[n]; }
  }

  /** The first `limit` outcomes of a retried step; attempts beyond the given outcomes fail. */
  function Window(outcomes: seq<bool>, limit: nat): (w: seq<bool>)
    ensures |w| == limit
    ensures forall k :: 0 <= k < limit ==> w[k] == (k < |outcomes| && outcomes[k])
  {
    seq(limit, k requires 0 <= k < limit => k < |outcomes| && outcomes[k])
  }

  /** A retried step succeeds within `limit` attempts exactly when one of them does. */
  lemma WindowSucceeds(outcomes: seq<bool>, limit: nat)
    ensures FirstTrue(Window(outcomes, limit)).Some? <==> exists k :: 0 <= k < limit && k < |outcomes| && outcomes[k]
  {
    var w := Window(outcomes, limit);
    if FirstTrue(w).Some? {
      var k := FirstTrue(w).value;
      assert w[k];
    }
  }

  // ---------------------------------------------------------------------------
  // Renaming the downloaded image

  predicate EndsWithTif(p: string) {
    |p| >= 4 && p[|p| - 4..] == ".tif"
  }

  lemma SplitExtOfTif(p: string)
    requires EndsWithTif(p) && HasStem(p[..|p| - 4])
    ensures SplitExt(p) == (p[..|p| - 4], ".tif")
  {
    var root := p[..|p| - 4];
    RFindPrefix(p, '.', |p| - 3);
    assert p[..|p| - 3] == root + ['.'];
    RFindPrefix(p, '/', |p| - 4);
    var k :| RFind(root, '/') < k < |root| && root[k] != '.';
    assert p[k] == root[k];
  }

  /**
   * The upload name of a downloaded image: `.tif` becomes `.tiff`; a path
   * whose extension is anything else (or that has none) has no upload name.
   */
  function TiffPath(p: string): (q: Option<string>)
    ensures q.Some? <==> EndsWithTif(p) && HasStem(p[..|p| - 4])
    ensures q.Some? ==> q.value == p + ['f']
  {
    var parts := SplitExt(p);
    assert EndsWithTif(p) && HasStem(p[..|p| - 4]) ==> parts == (p[..|p| - 4], ".tif") by {
      if EndsWithTif(p) && HasStem(p[..|p| - 4]) { SplitExtOfTif(p); }
    }
    if parts.1 == ".tif" then
      assert p == parts.0 + ".tif";
      assert p[..|p| - 4] == parts.0;
      Some(parts.0 + ".tiff")
    else None
  }

  // ---------------------------------------------------------------------------
  // Paginator

  /**
   * The paginator button to click on the way to page `target`: the first
   * whose label is at least the target, else the last one; None when there
   * are no buttons (Python raises IndexError).
   */
  function PageButton(labels: seq<int>, target: int): (b: Option<nat>)
    ensures b.None? <==> labels == []
    ensures b.Some? ==> (b.value < |labels|
      && (forall j :: 0 <= j < b.value ==> labels[j] < target)
      && (labels[b.value] >= target || b.value == |labels| - 1))
  {
    var reaches := seq(|labels|, j requires 0 <= j < |labels| => labels[j] >= target);
    assert forall j :: 0 <= j < |labels| ==> reaches[j] == (labels[j] >= target);
    match FirstTrue(reaches)
    case Some(k) => Some(k)
    case None => if labels == [] then None else Some(|labels| - 1)
  }
}
