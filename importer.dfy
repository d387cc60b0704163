/**
 * The row loop of the CSV upload view. Each row is resolved through the header
 * lists, skipped when it has no name or no strategy, its amount and inception
 * date are parsed, and a fund is created; the view reports how many funds were
 * created. An amount that is not a decimal raises an exception the loop does
 * not catch, which ends the upload at that row.
 */
module Importer {
  import opened Wrappers
  import opened Text
  import opened Decimals
  import opened Dates
  import opened Headers
  import opened Funds

  /** What the amount cell of a row turns into. */
  datatype AumField = NoAum | Amount(value: Decimal) | InvalidOperation

  /** A missing or blank amount gives no amount; otherwise the commas are
      removed and `Decimal` reads the rest, raising `InvalidOperation` (which
      the handler, catching only `ValueError` and `TypeError`, lets through)
      when it is not a decimal. */
  function ParseAum(raw: Option<string>): (r: AumField)
    ensures raw.None? ==> r == NoAum
  {
    if raw.None? || Strip(raw.value) == [] then NoAum
    else
      match ParseDecimal(RemoveCommas(raw.value))
      case Some(d) => Amount(d)
      case None => InvalidOperation
  }

  /** What the loop does with one row: skip it, raise, or create a fund. */
  datatype RowPlan = Skip | Abort | Insert(fund: Fund)

  /** The decision the loop body makes for a row, before the database is asked. */
  function PlanRow(row: Row): RowPlan {
    var name := Resolve(NameHeaders, row);
    var strategy := Resolve(StrategyHeaders, row);
    if name.None? || strategy.None? then Skip
    else
      match ParseAum(Resolve(AumHeaders, row))
      case InvalidOperation => Abort
      case NoAum => Insert(Fund(Strip(name.value), Strip(strategy.value), None, InceptionDate(Resolve(DateHeaders, row))))
      case Amount(d) => Insert(Fund(Strip(name.value), Strip(strategy.value), Some(d), InceptionDate(Resolve(DateHeaders, row))))
  }

  /** `f` applied to each element, in order. */
  function Map<A, B>(f: A -> B, xs: seq<A>): (ys: seq<B>)
    ensures |ys| == |xs|
  {
    if xs == [] then [] else Map(f, xs[..|xs| - 1]) + [f(xs[|xs| - 1])]
  }

  lemma {:induction false} MapAt<A, B>(f: A -> B, xs: seq<A>, i: nat)
    requires i < |xs|
    ensures Map(f, xs)[i] == f(xs[i])
  {
    var n := |xs| - 1;
    if i < n {
      MapAt(f, xs[..n], i);
    }
  }

  /** The plans of all rows, in order. */
  function Plans(rows: seq<Row>): (ps: seq<RowPlan>)
    ensures |ps| == |rows|
  {
    Map(PlanRow, rows)
  }

  /** Each row has its own plan, computed from that row alone. */
  lemma PlansAt(rows: seq<Row>, i: nat)
    requires i < |rows|
    ensures Plans(rows)[i] == PlanRow(rows[i])
  {
    MapAt(PlanRow, rows, i);
  }

  /** The upload after some rows: the funds created so far and, once a row has
      raised, the index of that row. */
  datatype Progress = Progress(created: seq<Fund>, abortedAt: Option<nat>)

  /** One turn of the loop on row `i`; `accepts(i)` is whether the database
      stores the fund of that row. */
  function Step(p: Progress, plan: RowPlan, i: nat, accepts: nat -> bool): Progress {
    if p.abortedAt.Some? then p
    else
      match plan
      case Skip => p
      case Abort => Progress(p.created, Some(i))
      case Insert(f) => if accepts(i) then Progress(p.created + [f], None) else p
  }

  /** The loop run over the plans of the rows, one turn per row. */
  function Replay(plans: seq<RowPlan>, accepts: nat -> bool): (p: Progress)
    ensures |p.created| <= |plans|
    ensures p.abortedAt.Some? ==> p.abortedAt.value < |plans| && plans[p.abortedAt.value].Abort?
  {
    if plans == [] then Progress([], None)
    else
      var n := |plans| - 1;
      var q := Replay(plans[..n], accepts);
      assert q.abortedAt.Some? ==> plans[..n][q.abortedAt.value] == plans[q.abortedAt.value];
      Step(q, plans[n], n, accepts)
  }

  /** What the view reports: the number of funds created, or the row whose
      exception ended the upload. */
  datatype UploadOutcome = Imported(count: nat) | Aborted(row: nat)

  function Outcome(p: Progress): UploadOutcome {
    match p.abortedAt
    case Some(i) => Aborted(i)
    case None => Imported(|p.created|)
  }

  // An independent, front-to-back description of the same upload.

  /** The index of the first row that raises, if any. */
  function FirstAbort(plans: seq<RowPlan>): (r: Option<nat>)
    ensures r.Some? ==> r.value < |plans| && plans[r.value].Abort?
    ensures r.Some? ==> forall j :: 0 <= j < r.value ==> !plans[j].Abort?
    ensures r.None? ==> forall j :: 0 <= j < |plans| ==> !plans[j].Abort?
  {
    if plans == [] then None
    else if plans[0].Abort? then Some(0)
    else
      var r := FirstAbort(plans[1..]);
      assert forall j :: 1 <= j < |plans| ==> plans[j] == plans[1..][j - 1];
      match r
      case Some(i) => Some(i + 1)
      case None => None
  }

  /** The funds of the rows before the first one that raises whose creation the
      database accepts, in row order; `offset` is the index of `plans[0]`. */
  function Admitted(plans: seq<RowPlan>, accepts: nat -> bool, offset: nat): (r: seq<Fund>)
    ensures |r| <= |plans|
  {
    if plans == [] || plans[0].Abort? then []
    else
      (if plans[0].Insert? && accepts(offset) then [plans[0].fund] else [])
      + Admitted(plans[1..], accepts, offset + 1)
  }

  /** Running the loop over the rows creates exactly the admitted funds and
      stops exactly at the first row that raises. */
  lemma {:induction false} ReplayIsAdmitted(plans: seq<RowPlan>, accepts: nat -> bool)
    ensures Replay(plans, accepts) == Progress(Admitted(plans, accepts, 0), FirstAbort(plans))
  {
    if plans != [] {
      var n := |plans| - 1;
      var init := plans[..n];
      assert init + [plans[n]] == plans;
      ReplayIsAdmitted(init, accepts);
      FirstAbortSnoc(init, plans[n]);
      if FirstAbort(init).None? {
        AdmittedSnoc(init, plans[n], accepts, 0);
      } else {
        AdmittedSnocAfterAbort(init, plans[n], accepts, 0);
      }
    }
  }

  /** A row added at the end moves the first abort only when there was none. */
  lemma {:induction false} FirstAbortSnoc(plans: seq<RowPlan>, x: RowPlan)
    ensures FirstAbort(plans + [x]) ==
            if FirstAbort(plans).Some? then FirstAbort(plans)
            else if x.Abort? then Some(|plans|) else None
  {
    var r := FirstAbort(plans + [x]);
    if r.Some? {
      assert (plans + [x])[r.value].Abort?;
      if r.value < |plans| {
        assert plans[r.value] == (plans + [x])[r.value];
        forall j | 0 <= j < r.value ensures !plans[j].Abort? {
          assert plans[j] == (plans + [x])[j];
        }
        FirstAbortIs(plans, r.value);
      } else {
        forall j | 0 <= j < |plans| ensures !plans[j].Abort? {
          assert plans[j] == (plans + [x])[j];
        }
        FirstAbortNone(plans);
      }
    } else {
      forall j | 0 <= j < |plans| ensures !plans[j].Abort? {
        assert plans[j] == (plans + [x])[j];
      }
      FirstAbortNone(plans);
      assert (plans + [x])[|plans|] == x;
    }
  }

  /** The contract of FirstAbort determines its result. */
  lemma {:induction false} FirstAbortIs(plans: seq<RowPlan>, i: nat)
    requires i < |plans| && plans[i].Abort?
    requires forall j :: 0 <= j < i ==> !plans[j].Abort?
    ensures FirstAbort(plans) == Some(i)
  {
  }

  lemma {:induction false} FirstAbortNone(plans: seq<RowPlan>)
    requires forall j :: 0 <= j < |plans| ==> !plans[j].Abort?
    ensures FirstAbort(plans).None?
  {
  }

  /** Before any abort, a row added at the end adds its fund when accepted. */
  lemma {:induction false} AdmittedSnoc(plans: seq<RowPlan>, x: RowPlan, accepts: nat -> bool, offset: nat)
    requires forall j :: 0 <= j < |plans| ==> !plans[j].Abort?
    ensures Admitted(plans + [x], accepts, offset) ==
            Admitted(plans, accepts, offset) + (if x.Insert? && accepts(offset + |plans|) then [x.fund] else [])
  {
    var xs := plans + [x];
    var last := if x.Insert? && accepts(offset + |plans|) then [x.fund] else [];
    if plans == [] {
      assert xs[1..] == [];
      assert Admitted(xs, accepts, offset) == last + [];
    } else {
      var first := if plans[0].Insert? && accepts(offset) then [plans[0].fund] else [];
      var rest := plans[1..];
      assert xs[0] == plans[0];
      assert xs[1..] == rest + [x];
      assert forall j :: 0 <= j < |rest| ==> rest[j] == plans[j + 1];
      AdmittedSnoc(rest, x, accepts, offset + 1);
      assert Admitted(xs, accepts, offset) == first + (Admitted(rest, accepts, offset + 1) + last);
      assert first + (Admitted(rest, accepts, offset + 1) + last) == (first + Admitted(rest, accepts, offset + 1)) + last;
    }
  }

  /** After an abort, rows added at the end add nothing. */
  lemma {:induction false} AdmittedSnocAfterAbort(plans: seq<RowPlan>, x: RowPlan, accepts: nat -> bool, offset: nat)
    requires FirstAbort(plans).Some?
    ensures Admitted(plans + [x], accepts, offset) == Admitted(plans, accepts, offset)
  {
    var xs := plans + [x];
    assert xs[0] == plans[0];
    if !plans[0].Abort? {
      assert xs[1..] == plans[1..] + [x];
      assert FirstAbort(plans[1..]).Some? by {
        var i := FirstAbort(plans).value;
        assert plans[1..][i - 1] == plans[i];
      }
      AdmittedSnocAfterAbort(plans[1..], x, accepts, offset + 1);
    }
  }

  /** Every fund the upload creates is the fund of a row before the first one
      that raises, planned for creation and accepted by the database. */
  lemma {:induction false} AdmittedFromRow(plans: seq<RowPlan>, accepts: nat -> bool, offset: nat, k: nat)
    returns (i: nat)
    requires k < |Admitted(plans, accepts, offset)|
    ensures i < |plans| && plans[i] == Insert(Admitted(plans, accepts, offset)[k]) && accepts(offset + i)
    ensures forall j :: 0 <= j <= i ==> !plans[j].Abort?
  {
    var head := if plans[0].Insert? && accepts(offset) then [plans[0].fund] else [];
    var tail := Admitted(plans[1..], accepts, offset + 1);
    assert Admitted(plans, accepts, offset) == head + tail;
    if k < |head| {
      i := 0;
    } else {
      var i' := AdmittedFromRow(plans[1..], accepts, offset + 1, k - |head|);
      i := i' + 1;
      assert plans[i] == plans[1..][i'];
      forall j | 1 <= j <= i ensures !plans[j].Abort? {
        assert plans[j] == plans[1..][j - 1];
      }
    }
  }

  /** The upload ends at the first row that is not skipped and whose amount is
      not a decimal; the rows after it are never read. */
  lemma UploadAbortsAtFirstBadAmount(rows: seq<Row>, accepts: nat -> bool, i: nat)
    requires i < |rows| && Plans(rows)[i].Abort?
    requires forall j :: 0 <= j < i ==> !Plans(rows)[j].Abort?
    ensures Outcome(Replay(Plans(rows), accepts)) == Aborted(i)
    ensures Replay(Plans(rows), accepts).created == Admitted(Plans(rows)[..i], accepts, 0)
  {
    var ps := Plans(rows);
    ReplayIsAdmitted(ps, accepts);
    FirstAbortIs(ps, i);
    AdmittedStopsAtAbort(ps, accepts, 0, i);
  }

  /** The funds admitted are those of the rows before the first abort. */
  lemma {:induction false} AdmittedStopsAtAbort(plans: seq<RowPlan>, accepts: nat -> bool, offset: nat, i: nat)
    requires i < |plans| && plans[i].Abort?
    ensures Admitted(plans, accepts, offset) == Admitted(plans[..i], accepts, offset)
  {
    if i > 0 && !plans[0].Abort? {
      var t := plans[..i];
      assert t[0] == plans[0];
      assert t[1..] == plans[1..][..i - 1];
      AdmittedStopsAtAbort(plans[1..], accepts, offset + 1, i - 1);
    } else if i == 0 {
      assert plans[..i] == [];
    }
  }

  /** The reported count never exceeds the number of data rows. */
  lemma UploadCountBound(rows: seq<Row>, accepts: nat -> bool)
    ensures Outcome(Replay(Plans(rows), accepts)).Imported? ==>
            Outcome(Replay(Plans(rows), accepts)).count <= |rows|
  {
  }

  /** The funds created before an abort stay; the upload ends in the state the
      rows before the abort left. */
  lemma {:induction false} ReplayAfterAbort(plans: seq<RowPlan>, accepts: nat -> bool, n: nat)
    requires n <= |plans| && Replay(plans[..n], accepts).abortedAt.Some?
    ensures Replay(plans, accepts) == Replay(plans[..n], accepts)
  {
    if n < |plans| {
      var m := |plans| - 1;
      assert plans[..m][..n] == plans[..n];
      ReplayAfterAbort(plans[..m], accepts, n);
    } else {
      assert plans[..n] == plans;
    }
  }

  /** The three outcomes of the amount cell: nothing for a missing or blank
      cell, an exception exactly when the comma-free text is not a decimal, and
      otherwise the decimal that text denotes. */
  lemma ParseAumCases(raw: Option<string>)
    ensures ParseAum(raw) == NoAum <==> raw.None? || AllSpace(raw.value)
    ensures ParseAum(raw) == InvalidOperation <==>
            raw.Some? && !AllSpace(raw.value) && ParseDecimal(RemoveCommas(raw.value)).None?
    ensures ParseAum(raw).Amount? ==> ParseDecimal(RemoveCommas(raw.value)) == Some(ParseAum(raw).value)
  {
    if raw.Some? {
      StripEmptyIffAllSpace(raw.value);
    }
  }

  /** A blank amount, whitespace only, gives no amount. */
  lemma BlankAumIsAbsent(raw: string)
    requires AllSpace(raw)
    ensures ParseAum(Some(raw)) == NoAum
  {
    StripEmptyIffAllSpace(raw);
  }

  /** Commas anywhere in the amount are ignored: text whose comma-free form is
      the numeral of a decimal gives that decimal. */
  lemma AumIgnoresCommas(raw: string, d: Decimal)
    requires RemoveCommas(raw) == Render(d)
    ensures ParseAum(Some(raw)) == Amount(d)
  {
    var r := Render(d);
    var c := r[|r| - 1];
    RemoveCommasKeepsOthers(raw, c);
    assert c in multiset(RemoveCommas(raw));
    assert c in raw;
    StripEmptyIffAllSpace(raw);
    ParseRender(d);
  }

  /** An amount holding a character no numeral can hold, other than a comma,
      raises, and so ends the upload. */
  lemma AumWithStrayCharRaises(raw: string, c: char)
    requires c in raw && NeverInNumeral(c) && c != ','
    ensures ParseAum(Some(raw)) == InvalidOperation
  {
    var k :| 0 <= k < |raw| && raw[k] == c;
    StripKeeps(raw, c);
    RemoveCommasKeepsOthers(raw, c);
    assert c in multiset(raw);
    DecimalWithStrayChar(RemoveCommas(raw), c);
  }

  /** "N/A" in the amount column raises; it does not leave the amount empty. */
  lemma NotApplicableAumRaises(raw: string)
    requires raw == "N/A"
    ensures ParseAum(Some(raw)) == InvalidOperation
  {
    assert raw[1] == '/';
    AumWithStrayCharRaises(raw, '/');
  }

  /** An amount that is only commas leaves nothing for `Decimal` and raises. */
  lemma OnlyCommasAumRaises(raw: string)
    requires raw != [] && forall k :: 0 <= k < |raw| ==> raw[k] == ','
    ensures ParseAum(Some(raw)) == InvalidOperation
  {
    assert !IsSpace(raw[0]);
    StripEmptyIffAllSpace(raw);
    var t := RemoveCommas(raw);
    if t != [] {
      RemoveCommasKeepsOthers(raw, t[0]);
    }
    EmptyIsNotDecimal(t);
  }

  /** A row is skipped exactly when none of the name headers or none of the
      strategy headers holds a non-empty value. */
  lemma RowSkippedIff(row: Row)
    ensures PlanRow(row).Skip? <==>
            (forall i :: 0 <= i < |NameHeaders| ==> !Present(row, NameHeaders[i])) ||
            (forall i :: 0 <= i < |StrategyHeaders| ==> !Present(row, StrategyHeaders[i]))
  {
  }

  /** A row raises exactly when it is not skipped and its amount is present,
      not blank, and not a decimal once the commas are removed; the amount of a
      skipped row is never read. */
  lemma RowRaisesIff(row: Row)
    ensures PlanRow(row).Abort? <==>
            !PlanRow(row).Skip? &&
            var raw := Resolve(AumHeaders, row);
            raw.Some? && !AllSpace(raw.value) && ParseDecimal(RemoveCommas(raw.value)).None?
  {
    ParseAumCases(Resolve(AumHeaders, row));
  }

  /** The fund of a row that is created: the resolved name and strategy with
      the surrounding whitespace removed, the amount when the cell is not
      blank, and the first date any format reads. */
  lemma InsertedFund(row: Row)
    ensures PlanRow(row).Insert? ==>
            var f := PlanRow(row).fund;
            f.name == Strip(Resolve(NameHeaders, row).value) &&
            f.strategy == Strip(Resolve(StrategyHeaders, row).value) &&
            (f.aum.None? <==> Resolve(AumHeaders, row).None? || AllSpace(Resolve(AumHeaders, row).value)) &&
            (f.aum.Some? ==> ParseDecimal(RemoveCommas(Resolve(AumHeaders, row).value)) == f.aum) &&
            f.inceptionDate == InceptionDate(Resolve(DateHeaders, row))
  {
    ParseAumCases(Resolve(AumHeaders, row));
  }

  /** The required-field check looks at the value before stripping: a name of
      whitespace only passes it, and the fund is created with an empty name. */
  lemma BlankNameStoredEmpty(row: Row)
    ensures Resolve(NameHeaders, row).Some? && AllSpace(Resolve(NameHeaders, row).value) &&
            Resolve(StrategyHeaders, row).Some? && ParseAum(Resolve(AumHeaders, row)) != InvalidOperation ==>
            PlanRow(row).Insert? && PlanRow(row).fund.name == ""
  {
    var name := Resolve(NameHeaders, row);
    if name.Some? {
      StripEmptyIffAllSpace(name.value);
    }
  }

  /** The date handling of the loop body: a missing or blank value gives no
      date; otherwise the stripped value is tried under each format in turn and
      the loop stops at the first that parses. */
  method ParseInceptionDate(raw: Option<string>) returns (date: Option<Date>)
    ensures date == InceptionDate(raw)
  {
    date := None;
    if raw.Some? && Strip(raw.value) != [] {
      var dateStr := Strip(raw.value);
      var i := 0;
      while i < |Formats|
        invariant 0 <= i <= |Formats|
        invariant date.None?
        invariant FirstMatch(Formats[i..], dateStr) == InceptionDate(raw)
      {
        date := Strptime(dateStr, Formats[i]);
        if date.Some? {
          break;
        }
        assert Formats[i..][1..] == Formats[i + 1..];
        i := i + 1;
      }
    }
  }

  /** The body of the row loop for row `i`: a row without a name or a strategy
      is skipped, a row whose amount is not a decimal raises, and any other row
      has its fund offered to the database. */
  method ImportRow(store: FundStore, rows: seq<Row>, i: nat, accepts: nat -> bool) returns (raised: bool, created: bool)
    requires i < |rows|
    modifies store
    ensures raised <==> Plans(rows)[i].Abort?
    ensures created <==> Plans(rows)[i].Insert? && accepts(i)
    ensures store.funds == if created then old(store.funds) + [Plans(rows)[i].fund] else old(store.funds)
  {
    PlansAt(rows, i);
    var row := rows[i];
    raised, created := false, false;
    var name := Resolve(NameHeaders, row);
    var strategy := Resolve(StrategyHeaders, row);
    if name.None? || strategy.None? {
      return;
    }
    var aum: Option<Decimal> := None;
    match ParseAum(Resolve(AumHeaders, row)) {
      case InvalidOperation =>
        raised := true;
        return;
      case Amount(d) =>
        aum := Some(d);
      case NoAum =>
    }
    var inceptionDate := ParseInceptionDate(Resolve(DateHeaders, row));
    created := store.Create(Fund(Strip(name.value), Strip(strategy.value), aum, inceptionDate), accepts(i));
  }

  /** The row loop of the upload: each row is skipped, ends the upload by
      raising, or has its fund created, and the number of funds created is
      reported when no row raised. The funds created before a row raised stay. */
  method UploadCsv(store: FundStore, rows: seq<Row>, accepts: nat -> bool) returns (outcome: UploadOutcome)
    modifies store
    ensures store.funds == old(store.funds) + Replay(Plans(rows), accepts).created
    ensures outcome == Outcome(Replay(Plans(rows), accepts))
  {
    ghost var plans := Plans(rows);
    var fundsCreated := 0;
    var i := 0;
    while i < |rows|
      invariant 0 <= i <= |rows|
      invariant Replay(plans[..i], accepts).abortedAt.None?
      invariant store.funds == old(store.funds) + Replay(plans[..i], accepts).created
      invariant fundsCreated == |Replay(plans[..i], accepts).created|
    {
      assert plans[..i + 1][..i] == plans[..i];
      var raised, created := ImportRow(store, rows, i, accepts);
      if raised {
        ReplayAfterAbort(plans, accepts, i + 1);
        return Aborted(i);
      }
      if created {
        fundsCreated := fundsCreated + 1;
      }
      i := i + 1;
    }
    assert plans[..i] == plans;
    outcome := Imported(fundsCreated);
  }
}
