/** Row extraction from the advertiser statistics table (test.js:106-123).
    The page itself is not parsed here: each body row of `table.table` is
    given as its `td` cells in document order, each cell as its raw text
    and the `href` of every anchor inside it, in document order. */
module StatsTable {
  import opened Wrappers
  import opened JsText

  /** One `td`: its text content and the `href` values of its anchors
      (anchors without an `href` are not listed). */
  datatype Cell = Cell(text: string, hrefs: seq<string>)

  type Row = seq<Cell>

  /** The record pushed for a kept row: `{ name, id, clicks }`. */
  datatype Advertiser = Advertiser(name: string, id: string, clicks: nat)

  /** The query parameter that names the client, as the anchor selector
      `a[href*='clientid=']` and the regular expression both spell it. */
  const ClientIdKey: string := "clientid="

  /** The id shown when no client id could be read from the name cell. */
  const NoId: string := "-"

  predicate OccursAt(s: string, sub: string, i: nat) {
    i + |sub| <= |s| && s[i..i + |sub|] == sub
  }

  /** `s.includes(sub)`, the test behind the `*=` attribute selector. */
  predicate Contains(s: string, sub: string) {
    exists i: nat | i <= |s| :: OccursAt(s, sub, i)
  }

  /** `$(cell).find("a[href*='clientid=']").first().attr("href") || ""`:
      the first href that mentions `clientid=`, or "" when none does. */
  function FirstClientHref(hrefs: seq<string>): string {
    if hrefs == [] then []
    else if Contains(hrefs[0], ClientIdKey) then hrefs[0]
    else FirstClientHref(hrefs[1..])
  }

  /** "" exactly when no href mentions `clientid=`; otherwise the first
      one that does. */
  lemma {:induction false} FirstClientHrefSpec(hrefs: seq<string>)
    ensures FirstClientHref(hrefs) == [] <==> forall k :: 0 <= k < |hrefs| ==> !Contains(hrefs[k], ClientIdKey)
    ensures FirstClientHref(hrefs) != [] ==>
              exists k :: 0 <= k < |hrefs| && hrefs[k] == FirstClientHref(hrefs) && Contains(hrefs[k], ClientIdKey) &&
                          forall j :: 0 <= j < k ==> !Contains(hrefs[j], ClientIdKey)
  {
    if hrefs != [] {
      if Contains(hrefs[0], ClientIdKey) {
        var i: nat :| i <= |hrefs[0]| && OccursAt(hrefs[0], ClientIdKey, i);
        assert hrefs[0] != [];
      } else {
        FirstClientHrefSpec(hrefs[1..]);
        assert forall k :: 1 <= k < |hrefs| ==> hrefs[k] == hrefs[1..][k - 1];
        if FirstClientHref(hrefs) != [] {
          var k :| 0 <= k < |hrefs[1..]| && hrefs[1..][k] == FirstClientHref(hrefs) && Contains(hrefs[1..][k], ClientIdKey) &&
                   forall j :: 0 <= j < k ==> !Contains(hrefs[1..][j], ClientIdKey);
          assert hrefs[k + 1] == FirstClientHref(hrefs);
        }
      }
    }
  }

  /** The regular expression `/clientid=(\d+)/` matches at position `i`:
      the key is there and at least one digit follows it. */
  predicate MatchesAt(s: string, i: nat) {
    OccursAt(s, ClientIdKey, i) && i + |ClientIdKey| < |s| && IsDigit(s[i + |ClientIdKey|])
  }

  /** The capture group of `/clientid=(\d+)/` when the search starts at `i`:
      the leftmost match position wins and `\d+` takes every digit after it. */
  function ClientIdFrom(s: string, i: nat): Option<string>
    requires i <= |s|
    decreases |s| - i
  {
    if i == |s| then None
    else if MatchesAt(s, i) then Some(DigitPrefix(s[i + |ClientIdKey|..]))
    else ClientIdFrom(s, i + 1)
  }

  /** No match from `i` on gives `None`; otherwise the capture is the
      maximal digit run after the leftmost match, and it is not empty. */
  lemma {:induction false} ClientIdFromSpec(s: string, i: nat)
    requires i <= |s|
    decreases |s| - i
    ensures ClientIdFrom(s, i).None? <==> forall k: nat :: i <= k < |s| ==> !MatchesAt(s, k)
    ensures ClientIdFrom(s, i).Some? ==>
              exists k: nat :: i <= k < |s| && MatchesAt(s, k) &&
                (forall j: nat :: i <= j < k ==> !MatchesAt(s, j)) &&
                ClientIdFrom(s, i).value == DigitPrefix(s[k + |ClientIdKey|..])
    ensures ClientIdFrom(s, i).Some? ==> ClientIdFrom(s, i).value != [] && AllDigits(ClientIdFrom(s, i).value)
  {
    if i < |s| {
      if MatchesAt(s, i) {
        DigitPrefixSpec(s[i + |ClientIdKey|..]);
        assert forall j: nat :: i <= j < i ==> !MatchesAt(s, j);
      } else {
        ClientIdFromSpec(s, i + 1);
        if ClientIdFrom(s, i).Some? {
          var k: nat :| i + 1 <= k < |s| && MatchesAt(s, k) &&
                        (forall j: nat :: i + 1 <= j < k ==> !MatchesAt(s, j)) &&
                        ClientIdFrom(s, i).value == DigitPrefix(s[k + |ClientIdKey|..]);
          assert forall j: nat :: i <= j < k ==> !MatchesAt(s, j);
        }
      }
    }
  }

  /** `href.match(/clientid=(\d+)/)`, reduced to its capture group. */
  function ClientIdMatch(href: string): Option<string> {
    ClientIdFrom(href, 0)
  }

  /** The id of a row: the digits captured from the first client anchor of
      the name cell, or "-" when there is none or it does not match. */
  function IdOf(cell: Cell): string {
    match ClientIdMatch(FirstClientHref(cell.hrefs))
    case Some(digits) => digits
    case None => NoId
  }

  /** An id is "-" or a non-empty run of digits. */
  lemma IdShape(cell: Cell)
    ensures IdOf(cell) == NoId || (IdOf(cell) != [] && AllDigits(IdOf(cell)))
  {
    ClientIdFromSpec(FirstClientHref(cell.hrefs), 0);
  }

  /** `parseInt(text.trim().replace(/,/g, ""), 10)` for the clicks cell. */
  function ClicksOf(cell: Cell): JsNum {
    ParseInt(StripCommas(Trim(cell.text)))
  }

  /** The record a row yields, if any (test.js:109-121). */
  function RowRecord(row: Row): Option<Advertiser> {
    if |row| < 5 then None
    else
      var name := Trim(row[0].text);
      var clicks := ClicksOf(row[4]);
      if name != [] && clicks.Num? && clicks.n >= 0
      then Some(Advertiser(name, IdOf(row[0]), clicks.n))
      else None
  }

  /** The keep rule: a row yields a record exactly when it has five cells,
      its name cell is not blank and its clicks parse to a number `>= 0`.
      Nothing else, the text of the name included, is looked at. The
      record carries the trimmed name, the client id and the clicks. */
  lemma RowKeepRule(row: Row)
    ensures RowRecord(row).Some? <==>
              && |row| >= 5
              && (exists i :: 0 <= i < |row[0].text| && !IsJsSpace(row[0].text[i]))
              && ClicksOf(row[4]).Num? && ClicksOf(row[4]).n >= 0
    ensures RowRecord(row).Some? ==>
              var rec := RowRecord(row).value;
              rec.name == Trim(row[0].text) && rec.name != [] &&
              rec.id == IdOf(row[0]) && ClicksOf(row[4]) == Num(rec.clicks)
  {
    if |row| >= 5 {
      TrimBlank(row[0].text);
    }
  }

  /** The records that `record` yields for `rows`, in document order. */
  function Collect(rows: seq<Row>, record: Row -> Option<Advertiser>): (ads: seq<Advertiser>)
    ensures |ads| <= |rows|
  {
    if rows == [] then []
    else
      Collect(rows[..|rows| - 1], record) +
      (match record(rows[|rows| - 1]) case Some(rec) => [rec] case None => [])
  }

  /** The positions of the rows for which `record` yields a record, ascending. */
  function KeptBy(rows: seq<Row>, record: Row -> Option<Advertiser>): seq<nat> {
    if rows == [] then []
    else
      KeptBy(rows[..|rows| - 1], record) +
      (if record(rows[|rows| - 1]).Some? then [|rows| - 1] else [])
  }

  /** The records of `rows`, one per kept row, in document order. */
  function Extracted(rows: seq<Row>): seq<Advertiser> {
    Collect(rows, RowRecord)
  }

  /** The positions of the kept rows, ascending. */
  function KeptIndices(rows: seq<Row>): seq<nat> {
    KeptBy(rows, RowRecord)
  }

  /** The `.each` loop: walk the rows in order and push a record for every
      row that passes the checks. */
  method ExtractAdvertisers(rows: seq<Row>) returns (advertisers: seq<Advertiser>)
    ensures advertisers == Extracted(rows)
  {
    advertisers := [];
    for i := 0 to |rows|
      invariant advertisers == Extracted(rows[..i])
    {
      assert rows[..i + 1][..i] == rows[..i];
      var cols := rows[i];
      if |cols| >= 5 {
        var name := Trim(cols[0].text);
        var clicks := ParseInt(StripCommas(Trim(cols[4].text)));
        var id := IdOf(cols[0]);
        if name != [] && clicks.Num? && clicks.n >= 0 {
          advertisers := advertisers + [Advertiser(name, id, clicks.n)];
        }
      }
    }
    assert rows[..|rows|] == rows;
  }

  lemma {:induction false} CollectConcat(a: seq<Row>, b: seq<Row>, record: Row -> Option<Advertiser>)
    ensures Collect(a + b, record) == Collect(a, record) + Collect(b, record)
    decreases |b|
  {
    if b == [] {
      assert a + b == a;
    } else {
      var b' := b[..|b| - 1];
      assert (a + b)[..|a + b| - 1] == a + b';
      CollectConcat(a, b', record);
    }
  }

  /** Extraction works row by row: the records of a concatenation are the
      records of the first part followed by those of the second. */
  lemma ExtractedConcat(a: seq<Row>, b: seq<Row>)
    ensures Extracted(a + b) == Extracted(a) + Extracted(b)
  {
    CollectConcat(a, b, RowRecord);
  }

  lemma {:induction false} CollectInOrder(rows: seq<Row>, record: Row -> Option<Advertiser>)
    ensures |KeptBy(rows, record)| == |Collect(rows, record)|
    ensures forall j :: 0 <= j < |KeptBy(rows, record)| ==>
              KeptBy(rows, record)[j] < |rows| &&
              record(rows[KeptBy(rows, record)[j]]) == Some(Collect(rows, record)[j])
    ensures forall j, k :: 0 <= j < k < |KeptBy(rows, record)| ==> KeptBy(rows, record)[j] < KeptBy(rows, record)[k]
    ensures forall i :: 0 <= i < |rows| && record(rows[i]).Some? ==> i in KeptBy(rows, record)
  {
    if rows != [] {
      var init, last := rows[..|rows| - 1], rows[|rows| - 1];
      CollectInOrder(init, record);
      assert forall i :: 0 <= i < |init| ==> rows[i] == init[i];
      var kept, ads := KeptBy(init, record), Collect(init, record);
      if record(last).Some? {
        assert KeptBy(rows, record) == kept + [|rows| - 1];
        assert Collect(rows, record) == ads + [record(last).value];
      } else {
        assert KeptBy(rows, record) == kept;
        assert Collect(rows, record) == ads;
      }
    }
  }

  /** Extraction keeps document order and drops nothing that passes: the
      j-th record comes from the j-th kept row, the kept rows' positions
      ascend, and every row that yields a record is among them. */
  lemma ExtractedInDocumentOrder(rows: seq<Row>)
    ensures |KeptIndices(rows)| == |Extracted(rows)|
    ensures forall j :: 0 <= j < |KeptIndices(rows)| ==>
              KeptIndices(rows)[j] < |rows| &&
              RowRecord(rows[KeptIndices(rows)[j]]) == Some(Extracted(rows)[j])
    ensures forall j, k :: 0 <= j < k < |KeptIndices(rows)| ==> KeptIndices(rows)[j] < KeptIndices(rows)[k]
    ensures forall i :: 0 <= i < |rows| && RowRecord(rows[i]).Some? ==> i in KeptIndices(rows)
  {
    CollectInOrder(rows, RowRecord);
  }

  /** The thousands separator is dropped before parsing: "1,234" counts 1234. */
  lemma ThousandsSeparatedClicks()
    ensures ClicksOf(Cell("1,234", [])) == Num(1234)
  {
    TrimUnpadded("1,234");
    CommaFree1234();
    Parse1234();
  }

  lemma CommaFree1234()
    ensures StripCommas("1,234") == "1234"
  {
    assert StripCommas("234") == "234";
    assert StripCommas(",234") == "234";
  }

  lemma Parse1234()
    ensures ParseInt("1234") == Num(1234)
  {
    ParseIntDigits("1234", []);
    assert "1234" + [] == "1234";
    Value1234();
  }

  lemma Value1234()
    ensures DigitsValue("1234") == 1234
  {
    assert "1234"[..3] == "123" && "123"[..2] == "12" && "12"[..1] == "1";
  }

  /** The digits after `clientid=` in the name cell's anchor are the id. */
  lemma ClientIdOfAnchor()
    ensures IdOf(Cell("Acme", ["?clientid=42"])) == "42"
  {
    var href := "?clientid=42";
    assert OccursAt(href, ClientIdKey, 1);
    assert FirstClientHref([href]) == href;
    assert MatchesAt(href, 1) && !MatchesAt(href, 0);
    assert href[10..] == "42";
    assert DigitPrefix("42") == "42" by {
      assert "42" + [] == "42";
      DigitPrefixStops("42", []);
    }
  }

  /** The row of an advertiser named Acme with client id 42 and "1,234"
      clicks yields `{ name: "Acme", id: "42", clicks: 1234 }`. */
  lemma AcmeRow()
    ensures RowRecord([Cell("Acme", ["?clientid=42"]), Cell("-", []), Cell("-", []),
                       Cell("-", []), Cell("1,234", [])])
            == Some(Advertiser("Acme", "42", 1234))
  {
    TrimUnpadded("Acme");
    ThousandsSeparatedClicks();
    ClientIdOfAnchor();
  }

  /** A name cell without anchors gives the id "-". */
  lemma NoAnchorNoId(text: string)
    ensures IdOf(Cell(text, [])) == NoId
  {
    assert FirstClientHref([]) == [];
    assert ClientIdFrom([], 0) == None;
  }

  /** No row is singled out by its text: a "Total" row with five cells and
      a parseable click count is reported like any advertiser, whatever
      the three middle cells hold. */
  lemma TotalRowIsKept(b: Cell, c: Cell, d: Cell)
    ensures RowRecord([Cell("Total", []), b, c, d, Cell("1,234", [])])
            == Some(Advertiser("Total", NoId, 1234))
  {
    TrimUnpadded("Total");
    ThousandsSeparatedClicks();
    NoAnchorNoId("Total");
  }
}
