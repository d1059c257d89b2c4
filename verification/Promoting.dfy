/** Proposing, validating and promoting weights (research_loop/promotion.py). */
module Promoting {
  import opened Contracts
  import opened Combinatorics
  import opened Sums
  import opened Dicts
  import opened WeightTable
  import opened Persistence
  import opened Controllers
  import opened Attribution
  import opened ShapleyWindow

  // ----- proposal

  function PositivePart(x: real): real {
    if x < 0.0 then 0.0 else x
  }

  /** {row.desk_name: max(value, 0)}: a repeated desk keeps its last value. */
  function PositiveValues(rows: seq<ShapleyRow>): Dict<string, real>
  {
    if rows == [] then []
    else Put(PositiveValues(rows[..|rows| - 1]), rows[|rows| - 1].desk, PositivePart(rows[|rows| - 1].value))
  }

  /** A desk is entered with its last row's value, cut off at zero. */
  lemma {:induction false} LastValueCounts(rows: seq<ShapleyRow>, k: nat)
    requires k < |rows| && forall j :: k < j < |rows| ==> rows[j].desk != rows[k].desk
    ensures Get(PositiveValues(rows), rows[k].desk) == Some(if rows[k].value > 0.0 then rows[k].value else 0.0)
  {
    var n := |rows| - 1;
    GetPut(PositiveValues(rows[..n]), rows[n].desk, PositivePart(rows[n].value), rows[k].desk);
    if k < n { LastValueCounts(rows[..n], k); }
  }

  /** A desk without a row is not entered. */
  lemma {:induction false} UnlistedDesk(rows: seq<ShapleyRow>, desk: string)
    requires forall r :: r in rows ==> r.desk != desk
    ensures Get(PositiveValues(rows), desk) == None
  {
    if rows != [] {
      var n := |rows| - 1;
      assert rows[n] in rows && forall r :: r in rows[..n] ==> r in rows;
      UnlistedDesk(rows[..n], desk);
      GetPut(PositiveValues(rows[..n]), rows[n].desk, PositivePart(rows[n].value), desk);
    }
  }

  function ProposedWeight(positives: Dict<string, real>, total: real, row: WeightRow): real {
    match Get(positives, row.slot.desk)
    case Some(x) => if total > 0.0 then x / total else row.weight
    case None => row.weight
  }

  lemma {:induction false} PositiveValuesSpec(rows: seq<ShapleyRow>)
    ensures Unique(PositiveValues(rows))
    ensures forall e :: e in PositiveValues(rows) ==> e.1 >= 0.0
    ensures (forall r :: r in rows ==> r.value <= 0.0) ==> forall e :: e in PositiveValues(rows) ==> e.1 == 0.0
  {
    if rows != [] {
      var front, last := rows[..|rows| - 1], rows[|rows| - 1];
      PositiveValuesSpec(front);
      assert last in rows && forall r :: r in front ==> r in rows;
      PutUnique(PositiveValues(front), last.desk, PositivePart(last.value));
      forall e | e in PositiveValues(rows)
        ensures e == (last.desk, PositivePart(last.value)) || e in PositiveValues(front)
      {
        PutKeys(PositiveValues(front), last.desk, PositivePart(last.value), e);
      }
    }
  }

  /** One row per current row: its slot, the proposed weight, the new timestamp and the promotion's tag. */
  ghost predicate IsProposal(candidate: seq<WeightRow>, shapley: seq<ShapleyRow>, current: seq<WeightRow>, ts: int,
                             tag: string) {
    var positives := PositiveValues(shapley);
    && |candidate| == |current|
    && forall i :: 0 <= i < |current| ==>
         && candidate[i].slot == current[i].slot
         && candidate[i].weight == ProposedWeight(positives, Sum(positives, Second()), current[i])
         && candidate[i].ts == ts && candidate[i].artefact == Promotion(tag)
  }

  /** propose_weights_from_shapley, with ids outside those already issued. */
  method Propose(shapley: seq<ShapleyRow>, current: seq<WeightRow>, ts: int, tag: string, taken: set<int>)
    returns (candidate: seq<WeightRow>)
    ensures IsProposal(candidate, shapley, current, ts, tag)
    ensures UniqueIds(candidate) && forall w :: w in candidate ==> w.id !in taken
  {
    var positives := PositiveValues(shapley);
    var total := Sum(positives, Second());
    candidate := [];
    var issued := taken;
    for i := 0 to |current|
      invariant |candidate| == i
      invariant forall j :: 0 <= j < i ==>
                  && candidate[j].slot == current[j].slot
                  && candidate[j].weight == ProposedWeight(positives, total, current[j])
                  && candidate[j].ts == ts && candidate[j].artefact == Promotion(tag)
      invariant taken <= issued && UniqueIds(candidate)
      invariant forall w :: w in candidate ==> w.id !in taken && w.id in issued
    {
      var id := FreshId(issued);
      issued := issued + {id};
      var w := WeightRow(id, current[i].slot, ProposedWeight(positives, total, current[i]), ts, Promotion(tag));
      assert forall j :: 0 <= j < i ==> candidate[j] in candidate;
      candidate := candidate + [w];
    }
  }

  /** Proposed weights are never negative. */
  lemma ProposalNonNegative(shapley: seq<ShapleyRow>, row: WeightRow)
    requires row.weight >= 0.0
    ensures ProposedWeight(PositiveValues(shapley), Sum(PositiveValues(shapley), Second()), row) >= 0.0
  {
    PositiveValuesSpec(shapley);
    GetMember(PositiveValues(shapley), row.slot.desk);
    match Get(PositiveValues(shapley), row.slot.desk)
    case Some(x) =>
      var total := Sum(PositiveValues(shapley), Second());
      if total > 0.0 { QuotientBounds(x, total, 0.0, x / total); }
    case None =>
  }

  /** If no desk has positive value, the proposal reproduces the current weight. */
  lemma NoPositiveKeepsWeight(shapley: seq<ShapleyRow>, row: WeightRow)
    requires forall r :: r in shapley ==> r.value <= 0.0
    ensures ProposedWeight(PositiveValues(shapley), Sum(PositiveValues(shapley), Second()), row) == row.weight
  {
    PositiveValuesSpec(shapley);
    SumConstant(PositiveValues(shapley), 0.0, Second());
    TimesIsProduct(|PositiveValues(shapley)|, 0.0);
  }

  ghost function Proposal(positives: Dict<string, real>, total: real): WeightRow -> real {
    (r: WeightRow) => ProposedWeight(positives, total, r)
  }

  /** A desk's share of the positive total; zero if it is not represented. */
  ghost function DeskShare(positives: Dict<string, real>, total: real): string -> real
    requires total > 0.0
  {
    d => match Get(positives, d) case Some(x) => x / total case None => 0.0
  }

  /** The weight kept by a desk that no Shapley row represents. */
  ghost function KeptWeight(positives: Dict<string, real>): WeightRow -> real {
    (r: WeightRow) => if Get(positives, r.slot.desk).None? then r.weight else 0.0
  }

  /** How many of the rows are the desk's. */
  function RowCount(desks: seq<string>, d: string): nat
  {
    if desks == [] then 0 else (if desks[0] == d then 1 else 0) + RowCount(desks[1..], d)
  }

  /** A represented desk's positive value, once for every weight row it holds. */
  ghost function PerRow(desks: seq<string>): ((string, real)) -> real {
    (e: (string, real)) => Times(RowCount(desks, e.0), e.1)
  }

  lemma {:induction false} SumOfCopies(desks: seq<string>, d: string, x: real)
    ensures Sum(desks, c => if d == c then x else 0.0) == Times(RowCount(desks, d), x)
  {
    if desks != [] {
      SumOfCopies(desks[1..], d, x);
    }
  }

  lemma {:induction false} TimesQuotient(k: nat, x: real, total: real)
    requires total > 0.0
    ensures Times(k, x / total) == Times(k, x) / total
  {
    if k > 0 {
      TimesQuotient(k - 1, x, total);
      SplitQuotient(x, Times(k - 1, x), total);
    }
  }

  /** The shares handed out to the rows, one full share for every row of a desk. */
  lemma {:induction false} SharesPerRow(positives: Dict<string, real>, total: real, desks: seq<string>)
    requires total > 0.0 && Unique(positives)
    ensures Sum(desks, DeskShare(positives, total)) == Sum(positives, PerRow(desks)) / total
  {
    if positives == [] {
      SumConstant(desks, 0.0, DeskShare(positives, total));
      TimesIsProduct(|desks|, 0.0);
    } else {
      var e, rest := positives[0], positives[1..];
      assert forall i :: 0 <= i < |rest| ==> rest[i] == positives[i + 1];
      SharesPerRow(rest, total, desks);
      var x := e.1 / total;
      SumOfCopies(desks, e.0, x);
      TimesQuotient(RowCount(desks, e.0), e.1, total);
      forall d | d in desks ensures DeskShare(positives, total)(d)
          == (if e.0 == d then x else 0.0) + DeskShare(rest, total)(d) {
        GetMember(rest, d);
      }
      SumPlus(desks, d => if e.0 == d then x else 0.0, DeskShare(rest, total), DeskShare(positives, total));
      SplitQuotient(Times(RowCount(desks, e.0), e.1), Sum(rest, PerRow(desks)), total);
    }
  }

  lemma {:induction false} SumOverDesks(rows: seq<WeightRow>, f: string -> real, g: WeightRow -> real)
    requires forall r :: r in rows ==> g(r) == f(r.slot.desk)
    ensures Sum(rows, g) == Sum(DeskNames(rows), f)
  {
    if rows != [] {
      SumOverDesks(rows[1..], f, g);
      assert DeskNames(rows) == [rows[0].slot.desk] + DeskNames(rows[1..]);
      assert rows[0] in rows;
    }
  }

  /** What the proposed weights add up to. */
  ghost function Proposed(shapley: seq<ShapleyRow>, current: seq<WeightRow>): real {
    Sum(current, Proposal(PositiveValues(shapley), Sum(PositiveValues(shapley), Second())))
  }

  /**
   With some positive value, the proposal hands a desk's whole share to each of its rows and leaves the
   rows of unrepresented desks as they are.
   */
  lemma ProposalTotal(shapley: seq<ShapleyRow>, current: seq<WeightRow>, positives: Dict<string, real>, total: real)
    requires positives == PositiveValues(shapley) && total == Sum(positives, Second()) > 0.0
    ensures Proposed(shapley, current)
         == Sum(positives, PerRow(DeskNames(current))) / total + Sum(current, KeptWeight(positives))
  {
    PositiveValuesSpec(shapley);
    SharesPerRow(positives, total, DeskNames(current));
    var share := (r: WeightRow) => DeskShare(positives, total)(r.slot.desk);
    SumOverDesks(current, DeskShare(positives, total), share);
    forall r: WeightRow ensures Proposal(positives, total)(r) == share(r) + KeptWeight(positives)(r) {
    }
    SumPlus(current, share, KeptWeight(positives), Proposal(positives, total));
  }

  /** So the proposed weights add up to one exactly when copies and kept weight balance. */
  lemma ProposalSumsToOneIff(shapley: seq<ShapleyRow>, current: seq<WeightRow>, positives: Dict<string, real>,
                             total: real, copies: real, kept: real)
    requires positives == PositiveValues(shapley) && total == Sum(positives, Second()) > 0.0
    requires copies == Sum(positives, PerRow(DeskNames(current))) && kept == Sum(current, KeptWeight(positives))
    ensures Proposed(shapley, current) == 1.0 <==> copies + total * kept == total
  {
    ProposalTotal(shapley, current, positives, total);
    ClearQuotient(copies, total, kept, Proposed(shapley, current));
  }

  lemma ClearQuotient(a: real, t: real, k: real, sum: real)
    requires t > 0.0 && sum == a / t + k
    ensures sum == 1.0 <==> a + t * k == t
  {
    var q := a / t;
    assert q * t == a;
    assert t * k == k * t;
    ZeroFactor(q + k - 1.0, t, a + t * k - t);
  }

  // ----- the caller's form

  lemma {:induction false} RowsOfMember(desks: seq<string>, d: string)
    ensures RowCount(desks, d) > 0 <==> d in desks
  {
    if desks != [] {
      RowsOfMember(desks[1..], d);
    }
  }

  lemma CopiesAtLeast(k: nat, x: real)
    requires x >= 0.0 && (x > 0.0 ==> k > 0)
    ensures x <= Times(k, x)
    ensures x == Times(k, x) <==> x == 0.0 || k == 1
  {
    if k > 0 {
      assert Times(1, x) == x + Times(0, x) == x;
      TimesPlus(1, k - 1, x);
      TimesIsProduct(k - 1, x);
      assert k > 1 && x > 0.0 ==> (k - 1) as real * x > 0.0;
    } else {
      assert Times(0, x) == 0.0;
    }
  }

  lemma BalancedIff(a: real, t: real, k: real, one: bool)
    requires t > 0.0 && a >= t && k >= 0.0 && (one <==> a + t * k == t)
    ensures one <==> a == t && k == 0.0
  {
    assert t * k >= 0.0 && (k > 0.0 ==> t * k > 0.0);
  }

  /** Every desk of positive value holds exactly one row. */
  ghost predicate OneRowEach(positives: Dict<string, real>, desks: seq<string>) {
    forall e :: e in positives && e.1 > 0.0 ==> RowCount(desks, e.0) == 1
  }

  ghost predicate NothingKept(positives: Dict<string, real>, current: seq<WeightRow>) {
    forall r :: r in current && Get(positives, r.slot.desk).None? ==> r.weight == 0.0
  }

  lemma CopiesBalanceIff(positives: Dict<string, real>, desks: seq<string>)
    requires forall e :: e in positives ==> e.1 >= 0.0 && (e.1 > 0.0 ==> e.0 in desks)
    ensures Sum(positives, PerRow(desks)) >= Sum(positives, Second())
    ensures Sum(positives, PerRow(desks)) == Sum(positives, Second()) <==> OneRowEach(positives, desks)
  {
    forall e | e in positives
      ensures Second<string, real>()(e) <= PerRow(desks)(e)
      ensures Second<string, real>()(e) == PerRow(desks)(e) <==> e.1 == 0.0 || RowCount(desks, e.0) == 1 {
      RowsOfMember(desks, e.0);
      CopiesAtLeast(RowCount(desks, e.0), e.1);
    }
    SumsOrdered(positives, Second(), PerRow(desks));
  }

  lemma KeptIsNothingIff(positives: Dict<string, real>, current: seq<WeightRow>)
    requires forall r :: r in current ==> r.weight >= 0.0
    ensures Sum(current, KeptWeight(positives)) >= 0.0
    ensures Sum(current, KeptWeight(positives)) == 0.0 <==> NothingKept(positives, current)
  {
    SumsOrdered(current, (r: WeightRow) => 0.0, KeptWeight(positives));
    SumConstant(current, 0.0, (r: WeightRow) => 0.0);
    TimesIsProduct(|current|, 0.0);
  }

  /**
   With non-negative weights and a row for every desk of positive value, the proposed weights add up to one
   exactly when each of those desks holds one row only and no row of an unrepresented desk carries weight.
   */
  lemma ProposalSumsToOneForCaller(shapley: seq<ShapleyRow>, current: seq<WeightRow>, positives: Dict<string, real>,
                                   total: real)
    requires positives == PositiveValues(shapley) && total == Sum(positives, Second()) > 0.0
    requires forall r :: r in current ==> r.weight >= 0.0
    requires forall e :: e in positives && e.1 > 0.0 ==> e.0 in DeskNames(current)
    ensures Proposed(shapley, current) == 1.0 <==>
            OneRowEach(positives, DeskNames(current)) && NothingKept(positives, current)
  {
    PositiveValuesSpec(shapley);
    CopiesBalanceIff(positives, DeskNames(current));
    KeptIsNothingIff(positives, current);
    var copies, kept := Sum(positives, PerRow(DeskNames(current))), Sum(current, KeptWeight(positives));
    ProposalSumsToOneIff(shapley, current, positives, total, copies, kept);
    BalancedIff(copies, total, kept, Proposed(shapley, current) == 1.0);
  }

  lemma {:induction false} DistinctRowsOf(desks: seq<string>, d: string)
    requires Distinct(desks)
    ensures RowCount(desks, d) == if d in desks then 1 else 0
  {
    if desks != [] {
      DistinctTail(desks);
      DistinctRowsOf(desks[1..], d);
      RowsOfMember(desks[1..], d);
    }
  }

  /** With distinct desks, and a row for every Shapley row, only the kept weight is left to decide. */
  lemma ProposalSumsToOne(shapley: seq<ShapleyRow>, current: seq<WeightRow>, positives: Dict<string, real>, total: real)
    requires positives == PositiveValues(shapley) && total == Sum(positives, Second()) > 0.0
    requires Distinct(DeskNames(current)) && forall e :: e in positives ==> e.0 in DeskNames(current)
    ensures Proposed(shapley, current) == 1.0 + Sum(current, KeptWeight(positives))
    ensures Proposed(shapley, current) == 1.0 <==> Sum(current, KeptWeight(positives)) == 0.0
    ensures (forall d :: d in DeskNames(current) ==> Get(positives, d).Some?) ==> Proposed(shapley, current) == 1.0
  {
    var desks := DeskNames(current);
    ProposalTotal(shapley, current, positives, total);
    forall e | e in positives ensures PerRow(desks)(e) == Second<string, real>()(e) {
      DistinctRowsOf(desks, e.0);
      assert Times(1, e.1) == e.1 + Times(0, e.1);
    }
    SumCongruence(positives, PerRow(desks), Second());
    QuotientBounds(total, total, 1.0, 1.0);
    if forall d :: d in desks ==> Get(positives, d).Some? {
      forall r | r in current ensures KeptWeight(positives)(r) == 0.0 {
        var i :| 0 <= i < |current| && current[i] == r;
        assert desks[i] == r.slot.desk;
      }
      SumConstant(current, 0.0, KeptWeight(positives));
      TimesIsProduct(|current|, 0.0);
    }
  }

  // ----- inputs on which the proposal does not add up to one

  /** Cold start writes one row per target: a lone desk with two targets is proposed its whole share twice. */
  lemma TwoTargetsSumToTwo(id: int, regime: string, ts: int, artefact: Artefact)
    ensures var current := [WeightRow(id, Triple(regime, "a", "t"), 0.5, ts, artefact),
                            WeightRow(id + 1, Triple(regime, "a", "u"), 0.5, ts, artefact)];
            var shapley := [ShapleyRow(0, "a", 1.0)];
            Proposed(shapley, current) == 2.0 && Sum(current, KeptWeight(PositiveValues(shapley))) == 0.0
  {
    var current := [WeightRow(id, Triple(regime, "a", "t"), 0.5, ts, artefact),
                    WeightRow(id + 1, Triple(regime, "a", "u"), 0.5, ts, artefact)];
    var shapley := [ShapleyRow(0, "a", 1.0)];
    OneValue("a", 1.0, shapley);
    forall r | r in current
      ensures KeptWeight([("a", 1.0)])(r) == 0.0 && Proposal([("a", 1.0)], 1.0)(r) == 1.0 {
      OneValue("a", 1.0, shapley);
    }
    SumConstant(current, 0.0, KeptWeight([("a", 1.0)]));
    SumConstant(current, 1.0, Proposal([("a", 1.0)], 1.0));
    TimesIsProduct(2, 0.0);
    TimesIsProduct(2, 1.0);
  }

  lemma OneValue(desk: string, x: real, shapley: seq<ShapleyRow>)
    requires x >= 0.0 && |shapley| == 1 && shapley[0].desk == desk && shapley[0].value == x
    ensures PositiveValues(shapley) == [(desk, x)] && Sum(PositiveValues(shapley), Second()) == x
    ensures Get([(desk, x)], desk) == Some(x)
  {
    assert shapley[..0] == [];
    assert Put([], desk, x) == [(desk, x)];
    assert [(desk, x)][1..] == [];
  }

  // ----- held-out error

  /** weight_by_key.get(key, 0.0): the last row of a key wins. */
  function WeightOf(rows: seq<WeightRow>, key: Key): real
  {
    if rows == [] then 0.0
    else if rows[|rows| - 1].Key() == key then rows[|rows| - 1].weight
    else WeightOf(rows[..|rows| - 1], key)
  }

  function Keys(rows: seq<WeightRow>): seq<Key> {
    seq(|rows|, i requires 0 <= i < |rows| => rows[i].Key())
  }

  function ForecastTerm(rows: seq<WeightRow>): ((Key, Forecast)) -> real {
    (e: (Key, Forecast)) => if e.1.stale then 0.0 else WeightOf(rows, e.0) * e.1.estimate
  }

  /** The validator's combined signal: a sum over the forecasts rather than over the weight rows. */
  function ForecastSignal(rows: seq<WeightRow>, book: Book): real {
    Sum(book, ForecastTerm(rows))
  }

  ghost function RowTerm(r: WeightRow): ((Key, Forecast)) -> real {
    (e: (Key, Forecast)) => if e.0 == r.Key() && !e.1.stale then r.weight * e.1.estimate else 0.0
  }

  lemma {:induction false} RowTermSum(r: WeightRow, book: Book)
    requires Unique(book)
    ensures Sum(book, RowTerm(r)) == Contribution(r, book)
  {
    if book != [] {
      var rest := book[1..];
      assert forall i :: 0 <= i < |rest| ==> rest[i] == book[i + 1];
      RowTermSum(r, rest);
      if book[0].0 == r.Key() {
        forall e | e in rest ensures RowTerm(r)(e) == 0.0 {
          var i :| 0 <= i < |rest| && rest[i] == e;
          assert book[0].0 != book[i + 1].0;
        }
        SumConstant(rest, 0.0, RowTerm(r));
        TimesIsProduct(|rest|, 0.0);
      }
    }
  }

  lemma {:induction false} NoRowNoWeight(rows: seq<WeightRow>, key: Key)
    requires key !in Keys(rows)
    ensures WeightOf(rows, key) == 0.0
  {
    if rows != [] {
      assert Keys(rows)[|rows| - 1] == rows[|rows| - 1].Key();
      assert Keys(rows[..|rows| - 1]) == Keys(rows)[..|rows| - 1];
      NoRowNoWeight(rows[..|rows| - 1], key);
    }
  }

  /** Summing over forecasts equals the Controller's sum over weight rows when each key has one row. */
  lemma {:induction false} ValidatorAgreesWithController(rows: seq<WeightRow>, book: Book)
    requires Unique(book) && Distinct(Keys(rows))
    ensures ForecastSignal(rows, book) == CombinedSignal(rows, book)
  {
    if rows == [] {
      SumConstant(book, 0.0, ForecastTerm(rows));
      TimesIsProduct(|book|, 0.0);
    } else {
      var front, r := rows[..|rows| - 1], rows[|rows| - 1];
      assert Keys(front) == Keys(rows)[..|front|];
      assert Keys(rows)[|front|] == r.Key();
      ValidatorAgreesWithController(front, book);
      RowTermSum(r, book);
      NoRowNoWeight(front, r.Key());
      forall e | e in book ensures ForecastTerm(rows)(e) == ForecastTerm(front)(e) + RowTerm(r)(e) {
        SplitTerm(rows, e);
      }
      SumPlus(book, ForecastTerm(front), RowTerm(r), ForecastTerm(rows));
      SumStep(rows, |front|, x => Contribution(x, book));
      assert rows[..|front| + 1] == rows;
    }
  }

  lemma SplitTerm(rows: seq<WeightRow>, e: (Key, Forecast))
    requires rows != [] && WeightOf(rows[..|rows| - 1], rows[|rows| - 1].Key()) == 0.0
    ensures ForecastTerm(rows)(e) == ForecastTerm(rows[..|rows| - 1])(e) + RowTerm(rows[|rows| - 1])(e)
  {
    assert 0.0 * e.1.estimate == 0.0;
  }

  /** A held-out decision, as its squared error under the given signal; zero without a print. */
  ghost function HeldOutError(signal: Book -> real, books: Dict<string, Book>,
                              prints: Dict<string, real>): WindowDecision -> real {
    (d: WindowDecision) =>
      match Get(prints, d.id)
      case Some(y) => Square(signal(BookOf(books, d.id)) - y)
      case None => 0.0
  }

  function GradedCount(decisions: seq<WindowDecision>, prints: Dict<string, real>): nat
  {
    if decisions == [] then 0
    else GradedCount(decisions[..|decisions| - 1], prints)
         + if Get(prints, decisions[|decisions| - 1].id).Some? then 1 else 0
  }

  /** The decisions that have a print, by position. */
  ghost function Graded(decisions: seq<WindowDecision>, prints: Dict<string, real>): set<int> {
    set k | 0 <= k < |decisions| && Get(prints, decisions[k].id).Some?
  }

  lemma {:induction false} GradedCountIs(decisions: seq<WindowDecision>, prints: Dict<string, real>)
    ensures GradedCount(decisions, prints) == |Graded(decisions, prints)|
  {
    if decisions != [] {
      var n := |decisions| - 1;
      GradedCountIs(decisions[..n], prints);
      var last: set<int> := if Get(prints, decisions[n].id).Some? then {n} else {};
      assert Graded(decisions, prints) == Graded(decisions[..n], prints) + last;
    }
  }

  /** Mean squared error over the decisions that have a print; zero when none has. */
  ghost function Mse(signal: Book -> real, decisions: seq<WindowDecision>, books: Dict<string, Book>,
                     prints: Dict<string, real>): real {
    var n := GradedCount(decisions, prints);
    if n == 0 then 0.0 else Average(Sum(decisions, HeldOutError(signal, books, prints)), n)
  }

  ghost function ValidatorSignal(rows: seq<WeightRow>): Book -> real {
    book => ForecastSignal(rows, book)
  }

  /** What the Controller computes from the ledger's current rows. */
  ghost function ControllerSignal(weights: seq<WeightRow>, regime: string): Book -> real {
    book => CombinedSignal(LatestWeights(weights, regime), book)
  }

  /** _windowed_mse. */
  method WindowedMse(rows: seq<WeightRow>, decisions: seq<WindowDecision>, books: Dict<string, Book>,
                     prints: Dict<string, real>)
    returns (mse: real, n: nat)
    ensures mse == Mse(ValidatorSignal(rows), decisions, books, prints)
    ensures n == GradedCount(decisions, prints)
  {
    var sse := 0.0;
    n := 0;
    ghost var error := HeldOutError(ValidatorSignal(rows), books, prints);
    for k := 0 to |decisions|
      invariant sse == Sum(decisions[..k], error) && n == GradedCount(decisions[..k], prints)
    {
      var d := decisions[k];
      SumStep(decisions, k, error);
      assert decisions[..k + 1][..k] == decisions[..k];
      match Get(prints, d.id) {
        case None => continue;
        case Some(y) =>
          var combined := SignalOf(rows, BookOf(books, d.id));
          assert error(d) == Square(combined - y);
          sse := sse + Square(combined - y);
          n := n + 1;
      }
    }
    assert decisions[..|decisions|] == decisions;
    mse := if n == 0 then 0.0 else Average(sse, n);
  }

  method SignalOf(rows: seq<WeightRow>, book: Book) returns (combined: real)
    ensures combined == ForecastSignal(rows, book)
  {
    combined := 0.0;
    for i := 0 to |book|
      invariant combined == Sum(book[..i], ForecastTerm(rows))
    {
      SumStep(book, i, ForecastTerm(rows));
      if !book[i].1.stale {
        combined := combined + WeightOf(rows, book[i].0) * book[i].1.estimate;
      }
    }
    assert book[..|book|] == book;
  }

  ghost predicate UniqueBooks(books: Dict<string, Book>) {
    forall e :: e in books ==> Unique(e.1)
  }

  /** On rows with one row per key, the validator's error is the error of the Controller using those rows. */
  lemma MseOfRows(rows: seq<WeightRow>, weights: seq<WeightRow>, regime: string,
                  decisions: seq<WindowDecision>, books: Dict<string, Book>, prints: Dict<string, real>)
    requires UniqueBooks(books) && Distinct(Keys(rows)) && rows == LatestWeights(weights, regime)
    ensures Mse(ValidatorSignal(rows), decisions, books, prints)
              == Mse(ControllerSignal(weights, regime), decisions, books, prints)
  {
    var f, g := HeldOutError(ValidatorSignal(rows), books, prints),
        HeldOutError(ControllerSignal(weights, regime), books, prints);
    forall d | d in decisions ensures f(d) == g(d) {
      var book := BookOf(books, d.id);
      GetMember(books, d.id);
      assert Unique(book);
      ValidatorAgreesWithController(rows, book);
      assert ValidatorSignal(rows)(book) == ControllerSignal(weights, regime)(book);
    }
    SumCongruence(decisions, f, g);
  }

  // ----- promotion

  /** The candidate's error is below the current one by more than the margin. */
  predicate Beats(candidateMse: real, currentMse: real, margin: real) {
    candidateMse < currentMse * (1.0 - margin)
  }

  /** The validation's condition as a relative drop of the error, which no candidate can make as large as 1. */
  lemma MarginMeaning(candidateMse: real, currentMse: real, margin: real)
    requires currentMse > 0.0
    ensures Beats(candidateMse, currentMse, margin) <==> (currentMse - candidateMse) / currentMse > margin
    ensures Beats(candidateMse, currentMse, margin) && candidateMse >= 0.0 ==> margin < 1.0
  {
    var gain := (currentMse - candidateMse) / currentMse;
    assert gain * currentMse == currentMse - candidateMse;
    Exceeds(gain, margin, currentMse);
    assert currentMse * (1.0 - margin) == currentMse - margin * currentMse;
    if margin >= 1.0 { Exceeds(margin, 1.0, currentMse); }
  }

  lemma Exceeds(x: real, y: real, t: real)
    requires t > 0.0
    ensures x > y <==> x * t > y * t
    ensures x >= y <==> x * t >= y * t
  {
    assert x > y ==> (x - y) * t > 0.0;
    assert x < y ==> (y - x) * t > 0.0;
  }

  lemma MseIsNonNegative(signal: Book -> real, decisions: seq<WindowDecision>, books: Dict<string, Book>,
                         prints: Dict<string, real>)
    ensures Mse(signal, decisions, books, prints) >= 0.0
  {
    var n, f := GradedCount(decisions, prints), HeldOutError(signal, books, prints);
    forall d | d in decisions ensures f(d) >= 0.0 {
      match Get(prints, d.id)
      case Some(y) => SquareSign(signal(BookOf(books, d.id)) - y);
      case None =>
    }
    NonNegativeSum(decisions, f);
    if n > 0 { AverageNonNegative(Sum(decisions, f), n); }
  }

  lemma {:induction false} NothingGraded(signal: Book -> real, decisions: seq<WindowDecision>,
                                         books: Dict<string, Book>, prints: Dict<string, real>)
    requires GradedCount(decisions, prints) == 0
    ensures Sum(decisions, HeldOutError(signal, books, prints)) == 0.0
  {
    if decisions != [] {
      var n := |decisions| - 1;
      NothingGraded(signal, decisions[..n], books, prints);
      SumStep(decisions, n, HeldOutError(signal, books, prints));
      assert decisions[..n + 1] == decisions;
    }
  }

  /** The mean times the number of graded decisions is the sum of their squared errors. */
  lemma MseIsMean(signal: Book -> real, decisions: seq<WindowDecision>, books: Dict<string, Book>,
                  prints: Dict<string, real>)
    ensures Mse(signal, decisions, books, prints) * GradedCount(decisions, prints) as real
         == Sum(decisions, HeldOutError(signal, books, prints))
  {
    var n := GradedCount(decisions, prints);
    if n > 0 {
      AverageTimes(Sum(decisions, HeldOutError(signal, books, prints)), n);
    } else {
      NothingGraded(signal, decisions, books, prints);
    }
  }

  /** The signal hits the print of every graded decision. */
  ghost predicate HitsPrints(signal: Book -> real, decisions: seq<WindowDecision>, books: Dict<string, Book>,
                             prints: Dict<string, real>) {
    forall d :: d in decisions && Get(prints, d.id).Some? ==> signal(BookOf(books, d.id)) == Get(prints, d.id).value
  }

  lemma ErrorSign(signal: Book -> real, books: Dict<string, Book>, prints: Dict<string, real>, d: WindowDecision)
    ensures var error := HeldOutError(signal, books, prints)(d);
            && error >= 0.0
            && (error == 0.0 <==> (Get(prints, d.id).Some? ==> signal(BookOf(books, d.id)) == Get(prints, d.id).value))
  {
    match Get(prints, d.id)
    case Some(y) => SquareSign(signal(BookOf(books, d.id)) - y);
    case None =>
  }

  lemma ErrorsVanishIff(signal: Book -> real, decisions: seq<WindowDecision>, books: Dict<string, Book>,
                        prints: Dict<string, real>)
    ensures Sum(decisions, HeldOutError(signal, books, prints)) == 0.0 <==>
            HitsPrints(signal, decisions, books, prints)
  {
    var zero: WindowDecision -> real := d => 0.0;
    forall d | d in decisions { ErrorSign(signal, books, prints, d); }
    SumsOrdered(decisions, zero, HeldOutError(signal, books, prints));
    SumConstant(decisions, 0.0, zero);
    TimesIsProduct(|decisions|, 0.0);
  }

  /** The error is zero exactly then. */
  lemma MseIsZeroIff(signal: Book -> real, decisions: seq<WindowDecision>, books: Dict<string, Book>,
                     prints: Dict<string, real>)
    ensures Mse(signal, decisions, books, prints) == 0.0 <==> HitsPrints(signal, decisions, books, prints)
  {
    var n, total := GradedCount(decisions, prints), Sum(decisions, HeldOutError(signal, books, prints));
    ErrorsVanishIff(signal, decisions, books, prints);
    if n == 0 {
      NothingGraded(signal, decisions, books, prints);
    } else {
      MseIsMean(signal, decisions, books, prints);
      ZeroFactor(Mse(signal, decisions, books, prints), n as real, total);
    }
  }

  datatype Validation = Validation(passed: bool, currentMse: real, candidateMse: real, heldOut: nat)

  /** validate_candidate_vs_current, with its own condition. */
  method Compare(weights: seq<WeightRow>, regime: string, candidate: seq<WeightRow>, decisions: seq<WindowDecision>,
                  books: Dict<string, Book>, prints: Dict<string, real>, margin: real)
    returns (v: Validation)
    ensures v.currentMse == Mse(ValidatorSignal(LatestWeights(weights, regime)), decisions, books, prints)
    ensures v.candidateMse == Mse(ValidatorSignal(candidate), decisions, books, prints)
    ensures v.heldOut == GradedCount(decisions, prints)
    ensures v.passed <==>
            v.heldOut >= 1 && v.currentMse > 0.0 && Beats(v.candidateMse, v.currentMse, margin)
    ensures margin >= 1.0 ==> !v.passed
  {
    var current, _ := WindowedMse(LatestWeights(weights, regime), decisions, books, prints);
    var proposed, n := WindowedMse(candidate, decisions, books, prints);
    v := Validation(current > 0.0 && Beats(proposed, current, margin) && n >= 1, current, proposed, n);
    if current > 0.0 { MarginMeaning(proposed, current, margin); }
    MseIsNonNegative(ValidatorSignal(candidate), decisions, books, prints);
  }

  /** validate_candidate_vs_current: the relative drop of the error must exceed the margin. */
  method Validate(weights: seq<WeightRow>, regime: string, candidate: seq<WeightRow>, decisions: seq<WindowDecision>,
                  books: Dict<string, Book>, prints: Dict<string, real>, margin: real)
    returns (v: Validation)
    ensures v.currentMse == Mse(ValidatorSignal(LatestWeights(weights, regime)), decisions, books, prints)
    ensures v.candidateMse == Mse(ValidatorSignal(candidate), decisions, books, prints)
    ensures v.heldOut == GradedCount(decisions, prints)
    ensures v.passed <==>
            v.heldOut >= 1 && v.currentMse > 0.0 && (v.currentMse - v.candidateMse) / v.currentMse > margin
    ensures margin >= 1.0 ==> !v.passed
  {
    v := Compare(weights, regime, candidate, decisions, books, prints, margin);
    if v.currentMse > 0.0 { MarginMeaning(v.candidateMse, v.currentMse, margin); }
  }

  method PromoteWeights(db: Database, candidate: seq<WeightRow>)
    requires db.Schema() && UniqueIds(candidate)
    requires forall w, r :: w in candidate && r in db.weights ==> w.id != r.id
    modifies db`weights
    ensures db.Schema() && db.weights == old(db.weights) + candidate
    ensures old(db.Valid()) && (forall w :: w in candidate ==> w.weight >= 0.0 && w.artefact.Promotion?) ==> db.Valid()
  {
    ghost var sound := db.Valid() && forall w :: w in candidate ==> w.weight >= 0.0 && w.artefact.Promotion?;
    for i := 0 to |candidate|
      invariant db.Schema() && db.weights == old(db.weights) + candidate[..i]
      invariant sound ==> db.Valid()
    {
      assert candidate[i] in candidate;
      assert candidate[..i + 1] == candidate[..i] + [candidate[i]];
      db.InsertSignalWeight(candidate[i]);
    }
    assert candidate[..|candidate|] == candidate;
  }

  lemma DistinctSlotsDistinctKeys(rows: seq<WeightRow>, regime: string)
    requires Distinct(Slots(rows)) && forall r :: r in rows ==> r.slot.regime == regime
    ensures Distinct(Keys(rows))
  {
    forall i, j | 0 <= i < j < |rows| ensures Keys(rows)[i] != Keys(rows)[j] {
      assert Slots(rows)[i] != Slots(rows)[j];
      assert rows[i] in rows && rows[j] in rows;
    }
  }

  /** The current rows with the proposed weights. */
  function Reweighted(shapley: seq<ShapleyRow>, current: seq<WeightRow>): (rows: seq<WeightRow>)
    ensures |rows| == |current|
    ensures forall i :: 0 <= i < |current| ==>
              rows[i] == current[i].(weight := ProposedWeight(PositiveValues(shapley),
                                                              Sum(PositiveValues(shapley), Second()), current[i]))
  {
    var positives := PositiveValues(shapley);
    var total := Sum(positives, Second());
    seq(|current|, i requires 0 <= i < |current| =>
        current[i].(weight := ProposedWeight(positives, total, current[i])))
  }

  ghost predicate SameWeights(xs: seq<WeightRow>, ys: seq<WeightRow>) {
    |xs| == |ys| && forall i :: 0 <= i < |xs| ==> xs[i].slot == ys[i].slot && xs[i].weight == ys[i].weight
  }

  lemma {:induction false} SameWeightOf(xs: seq<WeightRow>, ys: seq<WeightRow>, key: Key)
    requires SameWeights(xs, ys)
    ensures WeightOf(xs, key) == WeightOf(ys, key)
  {
    if xs != [] { SameWeightOf(xs[..|xs| - 1], ys[..|ys| - 1], key); }
  }

  /** The validator's error depends on slots and weights only. */
  lemma SameMse(xs: seq<WeightRow>, ys: seq<WeightRow>, decisions: seq<WindowDecision>, books: Dict<string, Book>,
                prints: Dict<string, real>)
    requires SameWeights(xs, ys)
    ensures Mse(ValidatorSignal(xs), decisions, books, prints) == Mse(ValidatorSignal(ys), decisions, books, prints)
  {
    var f, g := HeldOutError(ValidatorSignal(xs), books, prints), HeldOutError(ValidatorSignal(ys), books, prints);
    forall d | d in decisions ensures f(d) == g(d) {
      SameForecastSignal(xs, ys, BookOf(books, d.id));
    }
    SumCongruence(decisions, f, g);
  }

  lemma SameForecastSignal(xs: seq<WeightRow>, ys: seq<WeightRow>, book: Book)
    requires SameWeights(xs, ys)
    ensures ValidatorSignal(xs)(book) == ValidatorSignal(ys)(book)
  {
    forall e | e in book ensures ForecastTerm(xs)(e) == ForecastTerm(ys)(e) {
      SameWeightOf(xs, ys, e.0);
    }
    SumCongruence(book, ForecastTerm(xs), ForecastTerm(ys));
  }

  /** propose_validate_and_promote, with the validation's own condition. */
  method PromoteIfBetter(db: Database, regime: string, shapley: seq<ShapleyRow>, ts: int,
                         decisions: seq<WindowDecision>, books: Dict<string, Book>,
                         prints: Dict<string, real>,
                         margin: real, tag: string)
    returns (written: seq<WeightRow>, v: Validation)
    requires db.Schema() && UniqueBooks(books)
    modifies db`weights
    ensures db.Schema() && (old(db.Valid()) ==> db.Valid())
    ensures v.currentMse == Mse(ControllerSignal(old(db.weights), regime), decisions, books, prints)
    ensures v.candidateMse
         == Mse(ValidatorSignal(Reweighted(shapley, LatestWeights(old(db.weights), regime))), decisions, books, prints)
    ensures v.heldOut == GradedCount(decisions, prints)
    ensures v.passed <==> v.heldOut >= 1 && v.currentMse > 0.0 && Beats(v.candidateMse, v.currentMse, margin)
    ensures !v.passed ==> written == [] && db.weights == old(db.weights)
    ensures v.passed ==> db.weights == old(db.weights) + written
    ensures v.passed ==> IsProposal(written, shapley, LatestWeights(old(db.weights), regime), ts, tag)
    ensures v.passed && (forall r :: r in old(db.weights) && r.slot.regime == regime ==> r.ts < ts) ==>
              && LatestWeights(db.weights, regime) == written
              && (forall t: Triple :: t.regime != regime ==> LatestOf(db.weights, t) == LatestOf(old(db.weights), t))
              && v.candidateMse == Mse(ControllerSignal(db.weights, regime), decisions, books, prints)
    ensures margin >= 1.0 ==> !v.passed
  {
    var current := LatestWeights(db.weights, regime);
    LatestWeightsSpec(db.weights, regime);
    var candidate := Propose(shapley, current, ts, tag, set r | r in db.weights :: r.id);
    assert Slots(candidate) == Slots(current);
    v := Compare(db.weights, regime, candidate, decisions, books, prints, margin);
    SameMse(candidate, Reweighted(shapley, current), decisions, books, prints);
    DistinctSlotsDistinctKeys(current, regime);
    MseOfRows(current, db.weights, regime, decisions, books, prints);
    if !v.passed {
      return [], v;
    }
    if db.Valid() { CandidateNonNegative(shapley, db.weights, regime, candidate); }
    ghost var before := db.weights;
    PromoteWeights(db, candidate);
    written := candidate;
    if forall r :: r in before && r.slot.regime == regime ==> r.ts < ts {
      CandidateIsRead(before, candidate, regime, ts);
      DistinctSlotsDistinctKeys(candidate, regime);
      MseOfRows(candidate, db.weights, regime, decisions, books, prints);
      assert v.currentMse == Mse(ControllerSignal(before, regime), decisions, books, prints);
      assert v.candidateMse == Mse(ControllerSignal(db.weights, regime), decisions, books, prints);
    }
  }

  /**
   propose_validate_and_promote. A failed validation leaves the ledger alone. After a promotion newer
   than the regime's rows, the next read returns exactly the candidate, every other regime reads as
   before, and the two errors compared, of which the second has dropped by more than the margin, are the
   Controller's own before and after.
   */
  method ProposeValidateAndPromote(db: Database, regime: string, shapley: seq<ShapleyRow>, ts: int,
                                   decisions: seq<WindowDecision>, books: Dict<string, Book>,
                                   prints: Dict<string, real>,
                                   margin: real, tag: string)
    returns (written: seq<WeightRow>, v: Validation)
    requires db.Schema() && UniqueBooks(books)
    modifies db`weights
    ensures db.Schema() && (old(db.Valid()) ==> db.Valid())
    ensures v.currentMse == Mse(ControllerSignal(old(db.weights), regime), decisions, books, prints)
    ensures v.candidateMse
         == Mse(ValidatorSignal(Reweighted(shapley, LatestWeights(old(db.weights), regime))), decisions, books, prints)
    ensures v.heldOut == GradedCount(decisions, prints)
    ensures v.passed <==>
            v.heldOut >= 1 && v.currentMse > 0.0 && (v.currentMse - v.candidateMse) / v.currentMse > margin
    ensures !v.passed ==> written == [] && db.weights == old(db.weights)
    ensures v.passed ==> db.weights == old(db.weights) + written
    ensures v.passed ==> IsProposal(written, shapley, LatestWeights(old(db.weights), regime), ts, tag)
    ensures v.passed && (forall r :: r in old(db.weights) && r.slot.regime == regime ==> r.ts < ts) ==>
              && LatestWeights(db.weights, regime) == written
              && (forall t: Triple :: t.regime != regime ==> LatestOf(db.weights, t) == LatestOf(old(db.weights), t))
              && v.candidateMse == Mse(ControllerSignal(db.weights, regime), decisions, books, prints)
    ensures margin >= 1.0 ==> !v.passed
  {
    written, v := PromoteIfBetter(db, regime, shapley, ts, decisions, books, prints, margin, tag);
    if v.currentMse > 0.0 { MarginMeaning(v.candidateMse, v.currentMse, margin); }
  }

  lemma CandidateNonNegative(shapley: seq<ShapleyRow>, weights: seq<WeightRow>, regime: string,
                             candidate: seq<WeightRow>)
    requires NonNegative(weights)
    requires var current, positives := LatestWeights(weights, regime), PositiveValues(shapley);
             |candidate| == |current|
             && forall i :: 0 <= i < |current| ==>
                 candidate[i].weight == ProposedWeight(positives, Sum(positives, Second()), current[i])
    ensures NonNegative(candidate)
  {
    var current := LatestWeights(weights, regime);
    LatestWeightsSpec(weights, regime);
    forall w | w in candidate ensures w.weight >= 0.0 {
      var i :| 0 <= i < |candidate| && candidate[i] == w;
      assert current[i] in current;
      LatestIsNewest(weights, current[i].slot);
      ProposalNonNegative(shapley, current[i]);
    }
  }

  lemma CandidateIsRead(before: seq<WeightRow>, candidate: seq<WeightRow>, regime: string, ts: int)
    requires Slots(candidate) == Slots(LatestWeights(before, regime))
    requires forall i :: 0 <= i < |candidate| ==> candidate[i].ts == ts
    requires forall r :: r in before && r.slot.regime == regime ==> r.ts < ts
    ensures LatestWeights(before + candidate, regime) == candidate
    ensures Distinct(Slots(candidate)) && forall w :: w in candidate ==> w.slot.regime == regime
    ensures forall t: Triple :: t.regime != regime ==> LatestOf(before + candidate, t) == LatestOf(before, t)
  {
    var current := LatestWeights(before, regime);
    LatestWeightsSpec(before, regime);
    forall w | w in candidate ensures w.slot.regime == regime && w.ts == ts {
      var i :| 0 <= i < |candidate| && candidate[i] == w;
      assert Slots(candidate)[i] == Slots(current)[i];
      assert current[i] in current;
    }
    RewriteIsRead(before, candidate, regime);
    forall t: Triple | t.regime != regime ensures LatestOf(before + candidate, t) == LatestOf(before, t) {
      SlotsOfRegimeMember(AllSlots(before), regime, t);
      LatestAfterAppend(before, candidate, t);
    }
  }
}
