/** `getTargetsFromSheet` (test.js:50-63): the daily click targets read
    from the spreadsheet, summed per advertiser id into a dictionary.
    The sheet arrives as the rows of cell strings the Sheets API returns
    (rows may be ragged; an absent `values` field is the empty sheet). */
module SheetTargets {
  import opened Wrappers
  import opened JsText

  const IdHeader: string := "advertiser_id"
  const TargetHeader: string := "daily_target_clicks"

  /** `targets[id]` for an id cell that is absent is `targets[undefined]`,
      whose property key is this string. */
  const UndefinedKey: string := "undefined"

  /** The only way the function fails: the sheet has no rows at all, so
      `rows.shift()` yields `undefined` and `headers.indexOf` throws. */
  datatype SheetError = NoHeaderRow

  /** `headers.indexOf(name)`: the first position holding `name`, or -1. */
  function IndexOf(headers: seq<string>, name: string): (k: int)
    ensures -1 <= k < |headers|
  {
    if headers == [] then -1
    else if headers[0] == name then 0
    else
      var k := IndexOf(headers[1..], name);
      if k == -1 then -1 else k + 1
  }

  /** -1 exactly when `name` is not a header; otherwise its first position. */
  lemma {:induction false} IndexOfSpec(headers: seq<string>, name: string)
    ensures IndexOf(headers, name) == -1 <==> name !in headers
    ensures IndexOf(headers, name) >= 0 ==>
              headers[IndexOf(headers, name)] == name &&
              forall j :: 0 <= j < IndexOf(headers, name) ==> headers[j] != name
  {
    if headers != [] && headers[0] != name {
      IndexOfSpec(headers[1..], name);
      assert forall j :: 1 <= j < |headers| ==> headers[j] == headers[1..][j - 1];
    }
  }

  /** The dictionary key of a data row: `r[idIndex]` as a property key. An
      index of -1 (no such header) or past the end of the row reads
      `undefined`. */
  function KeyOf(row: seq<string>, idIndex: int): string {
    if 0 <= idIndex < |row| then row[idIndex] else UndefinedKey
  }

  /** `parseInt(r[clicksIndex] || 0, 10)`: an empty or missing cell is 0,
      any other text goes through `parseInt`. */
  function TargetOf(row: seq<string>, clicksIndex: int): JsNum {
    if 0 <= clicksIndex < |row| && row[clicksIndex] != [] then ParseInt(row[clicksIndex])
    else Num(0)
  }

  /** JavaScript truthiness of a dictionary value: NaN and 0 are falsy. */
  predicate Truthy(v: JsNum) {
    v.Num? && v.n != 0
  }

  /** Number addition: NaN absorbs. */
  function Add(a: JsNum, b: JsNum): (c: JsNum)
    ensures c.NaN? <==> a.NaN? || b.NaN?
  {
    if a.NaN? || b.NaN? then NaN else Num(a.n + b.n)
  }

  // ---------------------------------------------------------------------
  // The reference definition: what each key ends up holding.

  /** What one data row contributes: its key and its parsed target. */
  datatype Entry = Entry(key: string, target: JsNum)

  /** The entries of the data rows, in row order. */
  function Entries(rows: seq<seq<string>>, idIndex: int, clicksIndex: int): (es: seq<Entry>)
    ensures |es| == |rows|
  {
    if rows == [] then []
    else
      var last := rows[|rows| - 1];
      Entries(rows[..|rows| - 1], idIndex, clicksIndex) + [Entry(KeyOf(last, idIndex), TargetOf(last, clicksIndex))]
  }

  /** The keys the entries put into the dictionary. */
  function KeysOf(es: seq<Entry>): set<string> {
    if es == [] then {} else KeysOf(es[..|es| - 1]) + {es[|es| - 1].key}
  }

  /** The targets of the entries whose key is `key`, in row order. */
  function Contributions(es: seq<Entry>, key: string): seq<JsNum> {
    if es == [] then []
    else
      Contributions(es[..|es| - 1], key) +
      (if es[|es| - 1].key == key then [es[|es| - 1].target] else [])
  }

  /** The position of the last NaN in `cs`, or -1 when there is none. */
  function LastNaN(cs: seq<JsNum>): (k: int)
    ensures -1 <= k < |cs|
  {
    if cs == [] then -1
    else if cs[|cs| - 1].NaN? then |cs| - 1
    else LastNaN(cs[..|cs| - 1])
  }

  /** `LastNaN` finds a NaN, and only numbers come after it. */
  lemma {:induction false} LastNaNSpec(cs: seq<JsNum>)
    ensures LastNaN(cs) >= 0 ==> cs[LastNaN(cs)].NaN?
    ensures forall j :: LastNaN(cs) < j < |cs| ==> cs[j].Num?
  {
    if cs != [] && cs[|cs| - 1].Num? {
      LastNaNSpec(cs[..|cs| - 1]);
    }
  }

  /** The sum of the numbers in `cs` (NaN entries count nothing). */
  function SumNums(cs: seq<JsNum>): int {
    if cs == [] then 0
    else SumNums(cs[..|cs| - 1]) + (if cs[|cs| - 1].Num? then cs[|cs| - 1].n else 0)
  }

  /** What the accumulator holds after `cs`: NaN when the last entry is NaN,
      otherwise the sum of the entries after the last NaN (all of them when
      there is none), because `!targets[id]` resets a NaN to 0. */
  function Settled(cs: seq<JsNum>): JsNum {
    if cs != [] && cs[|cs| - 1].NaN? then NaN
    else Num(SumNums(cs[LastNaN(cs) + 1..]))
  }

  /** The dictionary holds exactly the keys of `es`, each settled. */
  ghost predicate Accumulated(targets: map<string, JsNum>, es: seq<Entry>) {
    && targets.Keys == KeysOf(es)
    && forall k :: k in targets ==> targets[k] == Settled(Contributions(es, k))
  }

  /** `if (!targets[id]) targets[id] = 0`: an entry that is missing, 0 or
      NaN is set to 0; a truthy one is left alone. */
  function Reset(targets: map<string, JsNum>, id: string): (reset: map<string, JsNum>) {
    if id in targets && Truthy(targets[id]) then targets else targets[id := Num(0)]
  }

  /** One turn of the `forEach`: reset the row's entry, then add the row's
      target to it. */
  function Accumulate(targets: map<string, JsNum>, e: Entry): (after: map<string, JsNum>) {
    var reset := Reset(targets, e.key);
    reset[e.key := Add(reset[e.key], e.target)]
  }

  /** The dictionary after the `forEach` has visited `es` in order. */
  function Fold(es: seq<Entry>): map<string, JsNum> {
    if es == [] then map[] else Accumulate(Fold(es[..|es| - 1]), es[|es| - 1])
  }

  /** The dictionary `getTargetsFromSheet` resolves to, or its failure. */
  function Targets(values: seq<seq<string>>): Result<map<string, JsNum>, SheetError> {
    if values == [] then Failure(NoHeaderRow)
    else Success(Fold(SheetEntries(values)))
  }

  /** The entries of a non-empty sheet's data rows, with the columns found
      in its header row. */
  function SheetEntries(values: seq<seq<string>>): (es: seq<Entry>)
    requires values != []
    ensures |es| == |values| - 1
  {
    Entries(values[1..], IndexOf(values[0], IdHeader), IndexOf(values[0], TargetHeader))
  }

  // ---------------------------------------------------------------------
  // The function itself.

  /** The header row is shifted off, the two columns are looked up by name
      and each data row adds its target to its id's entry, after resetting
      an entry that is missing, 0 or NaN. */
  method GetTargetsFromSheet(values: seq<seq<string>>) returns (result: Result<map<string, JsNum>, SheetError>)
    ensures result == Targets(values)
  {
    if values == [] {
      return Failure(NoHeaderRow);
    }
    var headers, rows := values[0], values[1..];
    var idIndex := IndexOf(headers, IdHeader);
    var clicksIndex := IndexOf(headers, TargetHeader);
    var targets: map<string, JsNum> := map[];
    for i := 0 to |rows|
      invariant targets == Fold(Entries(rows[..i], idIndex, clicksIndex))
    {
      var id := KeyOf(rows[i], idIndex);
      var target := TargetOf(rows[i], clicksIndex);
      if !(id in targets && Truthy(targets[id])) {
        targets := targets[id := Num(0)];
      }
      targets := targets[id := Add(targets[id], target)];
      EntriesStep(rows, idIndex, clicksIndex, i);
      FoldStep(Entries(rows[..i], idIndex, clicksIndex), Entry(id, target));
    }
    assert rows[..|rows|] == rows;
    result := Success(targets);
  }

  // ---------------------------------------------------------------------
  // Lemmas.

  /** One turn of the loop keeps the invariant. */
  lemma AccumulateStep(before: map<string, JsNum>, es: seq<Entry>, e: Entry)
    requires Accumulated(before, es)
    ensures Accumulated(Accumulate(before, e), es + [e])
  {
    var after := Accumulate(before, e);
    var es' := es + [e];
    assert es'[..|es'| - 1] == es;
    assert KeysOf(es') == KeysOf(es) + {e.key};
    assert after.Keys == before.Keys + {e.key};
    forall k | k in after
      ensures after[k] == Settled(Contributions(es', k))
    {
      AppendContributions(es, e, k);
      var cs := Contributions(es, k);
      if k == e.key {
        SettledAppend(cs, e.target);
        if e.key !in before {
          EmptyContributions(es, k);
          assert cs == [];
          assert after[k] == Add(Num(0), e.target);
        } else {
          NonEmptyContributions(es, k);
          assert before[k] == Settled(cs);
        }
      } else {
        assert k in before && after[k] == before[k];
        assert cs + [] == cs;
        assert Contributions(es', k) == cs;
      }
    }
  }

  /** The fold takes one more entry by one more turn of the loop. */
  lemma FoldStep(es: seq<Entry>, e: Entry)
    ensures Fold(es + [e]) == Accumulate(Fold(es), e)
  {
    assert (es + [e])[..|es|] == es;
  }

  /** One more data row gives one more entry, read from that row. */
  lemma EntriesStep(rows: seq<seq<string>>, idIndex: int, clicksIndex: int, i: nat)
    requires i < |rows|
    ensures Entries(rows[..i + 1], idIndex, clicksIndex) ==
            Entries(rows[..i], idIndex, clicksIndex) + [Entry(KeyOf(rows[i], idIndex), TargetOf(rows[i], clicksIndex))]
  {
    assert rows[..i + 1][..i] == rows[..i];
  }

  /** What the loop computes, described without the loop: the dictionary
      holds exactly the ids of the rows, each with its settled value. */
  lemma {:induction false} FoldSettles(es: seq<Entry>)
    ensures Accumulated(Fold(es), es)
  {
    if es != [] {
      var init, e := es[..|es| - 1], es[|es| - 1];
      assert es == init + [e];
      FoldSettles(init);
      AccumulateStep(Fold(init), init, e);
    }
  }

  lemma AppendContributions(es: seq<Entry>, e: Entry, k: string)
    ensures Contributions(es + [e], k) == Contributions(es, k) + (if e.key == k then [e.target] else [])
  {
    assert (es + [e])[..|es|] == es;
  }

  lemma {:induction false} EntryOfRow(rows: seq<seq<string>>, idIndex: int, clicksIndex: int, i: nat)
    requires i < |rows|
    ensures Entries(rows, idIndex, clicksIndex)[i] == Entry(KeyOf(rows[i], idIndex), TargetOf(rows[i], clicksIndex))
  {
    if i < |rows| - 1 {
      var init := rows[..|rows| - 1];
      EntryOfRow(init, idIndex, clicksIndex, i);
      assert init[i] == rows[i];
    }
  }

  /** A key no entry has has no contributions. */
  lemma {:induction false} EmptyContributions(es: seq<Entry>, k: string)
    requires k !in KeysOf(es)
    ensures Contributions(es, k) == []
  {
    if es != [] {
      EmptyContributions(es[..|es| - 1], k);
    }
  }

  /** A key some entry has has at least one contribution. */
  lemma {:induction false} NonEmptyContributions(es: seq<Entry>, k: string)
    requires k in KeysOf(es)
    ensures Contributions(es, k) != []
  {
    if es[|es| - 1].key != k {
      NonEmptyContributions(es[..|es| - 1], k);
    }
  }

  /** The keys are exactly the entries' keys. */
  lemma {:induction false} KeysOfEntries(es: seq<Entry>, k: string)
    ensures k in KeysOf(es) <==> exists j :: 0 <= j < |es| && es[j].key == k
  {
    if es != [] {
      var init := es[..|es| - 1];
      KeysOfEntries(init, k);
      assert forall j :: 0 <= j < |init| ==> init[j] == es[j];
    }
  }

  /** One step of the loop on the reference definition: adding an entry to
      an accumulator first reset when falsy matches the settled value of
      the longer sequence. */
  lemma SettledAppend(cs: seq<JsNum>, x: JsNum)
    ensures Settled(cs + [x]) == Add(if cs != [] && Truthy(Settled(cs)) then Settled(cs) else Num(0), x)
  {
    var ds := cs + [x];
    assert ds[..|ds| - 1] == cs;
    if x.Num? {
      var k := LastNaN(cs);
      assert LastNaN(ds) == k;
      var tail := ds[k + 1..];
      assert tail == cs[k + 1..] + [x];
      assert tail[..|tail| - 1] == cs[k + 1..];
      assert SumNums(tail) == SumNums(cs[k + 1..]) + x.n;
      assert Settled(ds) == Num(SumNums(cs[k + 1..]) + x.n);
      if cs == [] {
        assert cs[k + 1..] == [];
      } else if cs[|cs| - 1].NaN? {
        assert cs[k + 1..] == [];
      } else {
        assert Settled(cs) == Num(SumNums(cs[k + 1..]));
      }
    }
  }

  /** When every target of an id parses (or is empty), its entry is the
      plain sum of them. */
  lemma {:induction false} SumWhenAllParse(cs: seq<JsNum>)
    requires forall j :: 0 <= j < |cs| ==> cs[j].Num?
    ensures LastNaN(cs) == -1
    ensures Settled(cs) == Num(SumNums(cs))
  {
    if cs != [] {
      SumWhenAllParse(cs[..|cs| - 1]);
    }
    assert cs[0..] == cs;
  }

  /** The entry of the sheet's j-th row carries that row's key. */
  lemma SheetKey(values: seq<seq<string>>, j: nat)
    requires 1 <= j < |values|
    ensures SheetEntries(values)[j - 1].key == KeyOf(values[j], IndexOf(values[0], IdHeader))
  {
    EntryOfRow(values[1..], IndexOf(values[0], IdHeader), IndexOf(values[0], TargetHeader), j - 1);
  }

  /** The entry of the sheet's j-th row carries that row's target. */
  lemma SheetTarget(values: seq<seq<string>>, j: nat)
    requires 1 <= j < |values|
    ensures SheetEntries(values)[j - 1].target == TargetOf(values[j], IndexOf(values[0], TargetHeader))
  {
    EntryOfRow(values[1..], IndexOf(values[0], IdHeader), IndexOf(values[0], TargetHeader), j - 1);
  }

  /** The dictionary's keys are exactly the entries' keys. */
  lemma FoldKeys(es: seq<Entry>, k: string)
    ensures k in Fold(es) <==> exists j :: 0 <= j < |es| && es[j].key == k
  {
    FoldSettles(es);
    KeysOfEntries(es, k);
  }

  /** Every data row's id is a key of the dictionary, and no other key
      appears. */
  lemma TargetsKeys(values: seq<seq<string>>, k: string)
    requires values != []
    ensures k in Targets(values).value <==>
              exists j :: 1 <= j < |values| && KeyOf(values[j], IndexOf(values[0], IdHeader)) == k
  {
    var es, id := SheetEntries(values), IndexOf(values[0], IdHeader);
    FoldKeys(es, k);
    if k in Fold(es) {
      var j :| 0 <= j < |es| && es[j].key == k;
      SheetKey(values, j + 1);
      assert 1 <= j + 1 < |values| && KeyOf(values[j + 1], id) == k;
    } else {
      forall j | 1 <= j < |values|
        ensures KeyOf(values[j], id) != k
      {
        SheetKey(values, j);
        assert es[j - 1].key != k;
      }
    }
  }

  /** Each id's entry is NaN exactly when the last target of its rows does
      not parse, and otherwise the sum of its targets after the last one
      that does not (all of them when every one parses). */
  lemma TargetsValues(values: seq<seq<string>>, k: string)
    requires values != []
    requires k in Targets(values).value
    ensures Contributions(SheetEntries(values), k) != []
    ensures Targets(values).value[k] == Settled(Contributions(SheetEntries(values), k))
  {
    var es := SheetEntries(values);
    FoldSettles(es);
    NonEmptyContributions(es, k);
  }

  /** The contributions of an id, in row order, are the parsed targets of
      the data rows carrying it. */
  lemma {:induction false} ContributionsAreRowTargets(es: seq<Entry>, k: string)
    ensures |Contributions(es, k)| <= |es|
    ensures forall x :: x in Contributions(es, k) ==> exists j :: 0 <= j < |es| && es[j] == Entry(k, x)
  {
    if es != [] {
      var init := es[..|es| - 1];
      ContributionsAreRowTargets(init, k);
      assert forall j :: 0 <= j < |init| ==> init[j] == es[j];
    }
  }

  /** Entries whose targets are all 0 leave every key at 0. */
  lemma FoldAllZero(es: seq<Entry>, k: string)
    requires forall j :: 0 <= j < |es| ==> es[j].target == Num(0)
    requires k in Fold(es)
    ensures Fold(es)[k] == Num(0)
  {
    var cs := Contributions(es, k);
    FoldSettles(es);
    ContributionsAreRowTargets(es, k);
    forall j | 0 <= j < |cs| ensures cs[j] == Num(0) {
      assert cs[j] in cs;
    }
    SumWhenAllParse(cs);
    ZeroSum(cs);
  }

  /** With no `daily_target_clicks` header every id's target is 0. */
  lemma MissingTargetHeader(values: seq<seq<string>>, k: string)
    requires values != [] && TargetHeader !in values[0]
    requires k in Targets(values).value
    ensures Targets(values).value[k] == Num(0)
  {
    var es := SheetEntries(values);
    IndexOfSpec(values[0], TargetHeader);
    forall j | 0 <= j < |es| ensures es[j].target == Num(0) {
      SheetTarget(values, j + 1);
    }
    FoldAllZero(es, k);
  }

  lemma {:induction false} ZeroSum(cs: seq<JsNum>)
    requires forall j :: 0 <= j < |cs| ==> cs[j] == Num(0)
    ensures SumNums(cs) == 0
  {
    if cs != [] {
      ZeroSum(cs[..|cs| - 1]);
    }
  }

  /** With no `advertiser_id` header every row reads `r[-1]`, so all rows
      land on the single key "undefined". */
  lemma MissingIdHeader(values: seq<seq<string>>)
    requires values != [] && IdHeader !in values[0]
    ensures Targets(values).value.Keys <= {UndefinedKey}
  {
    var es := SheetEntries(values);
    IndexOfSpec(values[0], IdHeader);
    forall k | k in Fold(es) ensures k == UndefinedKey {
      FoldKeys(es, k);
      var j :| 0 <= j < |es| && es[j].key == k;
      SheetKey(values, j + 1);
    }
  }

  /** Two rows for id 42 with targets 100 and 50 add up to 150. */
  lemma TwoRowsAddUp()
    ensures Targets([[IdHeader, "advertiser_name", TargetHeader], ["42", "Acme", "100"], ["42", "Acme", "50"]])
            == Success(map["42" := Num(150)])
  {
    var values := [[IdHeader, "advertiser_name", TargetHeader], ["42", "Acme", "100"], ["42", "Acme", "50"]];
    HeaderPositions();
    TwoRowsEntries(values[1..]);
    var e1, e2 := Entry("42", Num(100)), Entry("42", Num(50));
    assert values[1..] == [["42", "Acme", "100"], ["42", "Acme", "50"]];
    assert SheetEntries(values) == [e1, e2];
    FoldStep([], e1);
    FoldStep([e1], e2);
    assert [e1, e2] == [e1] + [e2] && [e1] == [] + [e1];
    var m := map["42" := Num(100)];
    assert Fold([e1]) == m;
    assert Reset(m, "42") == m;
    assert Fold([e1, e2]) == map["42" := Num(150)];
  }

  lemma HeaderPositions()
    ensures IndexOf([IdHeader, "advertiser_name", TargetHeader], IdHeader) == 0
    ensures IndexOf([IdHeader, "advertiser_name", TargetHeader], TargetHeader) == 2
  {
    var h := [IdHeader, "advertiser_name", TargetHeader];
    assert h[1..] == ["advertiser_name", TargetHeader] && h[1..][1..] == [TargetHeader];
    assert IdHeader[0] != TargetHeader[0] && "advertiser_name"[0] != TargetHeader[0];
    assert IndexOf([TargetHeader], TargetHeader) == 0;
    assert IndexOf(["advertiser_name", TargetHeader], TargetHeader) == 1;
  }

  lemma TwoRowsEntries(rows: seq<seq<string>>)
    requires rows == [["42", "Acme", "100"], ["42", "Acme", "50"]]
    ensures Entries(rows, 0, 2) == [Entry("42", Num(100)), Entry("42", Num(50))]
  {
    Parse100();
    Parse50();
    assert rows[..1] == [rows[0]] && rows[..1][..0] == [];
  }

  lemma Parse100()
    ensures ParseInt("100") == Num(100)
  {
    ParseIntDigits("100", []);
    assert "100" + [] == "100";
    assert "100"[..2] == "10" && "10"[..1] == "1";
  }

  lemma Parse50()
    ensures ParseInt("50") == Num(50)
  {
    ParseIntDigits("50", []);
    assert "50" + [] == "50";
    assert "50"[..1] == "5";
  }
}
