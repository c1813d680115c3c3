/** The Telegram message built from the extracted records and the sheet
    targets (test.js:129-138): a fixed header, then one line per record in
    record order, with a target and percentage only when the record's id
    has a positive target. */
module Report {
  import opened JsText
  import opened StatsTable
  import SheetTargets

  /** `📊 Revive 今日點擊統計` followed by an empty line. */
  const Header: string := "\U{1F4CA} Revive \U{4ECA}\U{65E5}\U{9EDE}\U{64CA}\U{7D71}\U{8A08}\n\n"

  /** The separator between an advertiser and its counts: ` → `. */
  const Arrow: string := " \U{2192} "

  /** `targets[ad.id] || 0`: the entry when it is a non-zero number; 0 when
      the id is missing or its entry is 0 or NaN. */
  function LookupTarget(targets: map<string, JsNum>, id: string): int {
    if id in targets && SheetTargets.Truthy(targets[id]) then targets[id].n else 0
  }

  /** The lookup is 0 exactly when the id is missing or its entry is 0 or
      NaN; otherwise it is the entry's number. */
  lemma LookupTargetSpec(targets: map<string, JsNum>, id: string)
    ensures LookupTarget(targets, id) == 0 <==> id !in targets || targets[id] == NaN || targets[id] == Num(0)
    ensures LookupTarget(targets, id) != 0 ==> targets[id] == Num(LookupTarget(targets, id))
  {
  }

  /** `clicks / target * 100` in tenths of a percent, rounded to the nearest
      tenth with halves rounded up, as `toFixed(1)` rounds. */
  function PercentTenths(clicks: nat, target: nat): nat
    requires target > 0
  {
    (2000 * clicks + target) / (2 * target)
  }

  /** `PercentTenths` is the nearest number of tenths to
      `clicks * 1000 / target`, a half rounded up. */
  lemma PercentRounding(clicks: nat, target: nat)
    requires target > 0
    ensures var p := PercentTenths(clicks, target);
            2 * target * p <= 2000 * clicks + target < 2 * target * (p + 1)
  {
    var a, b := 2000 * clicks + target, 2 * target;
    assert a == b * (a / b) + a % b;
  }

  /** The percentage with one decimal place, for a value of `p` tenths. */
  function PercentText(p: nat): string
  {
    NatToString(p / 10) + "." + [DigitChar(p % 10)]
  }

  /** `${ad.name} (ID: ${ad.id}) → ${ad.clicks}`, the part every line has. */
  function Subject(ad: Advertiser): string {
    ad.name + " (ID: " + ad.id + ")" + Arrow + NatToString(ad.clicks)
  }

  /** The line appended for one record. */
  function Line(ad: Advertiser, targets: map<string, JsNum>): string {
    var target := LookupTarget(targets, ad.id);
    if target > 0 then
      Subject(ad) + " / " + NatToString(target) + " (" + PercentText(PercentTenths(ad.clicks, target)) + "%)\n"
    else
      Subject(ad) + "\n"
  }

  /** The texts `render` gives the records of `ads`, joined in order. */
  function Joined(ads: seq<Advertiser>, render: Advertiser -> string): string {
    if ads == [] then [] else Joined(ads[..|ads| - 1], render) + render(ads[|ads| - 1])
  }

  /** The lines of `ads`, in order. */
  function Lines(ads: seq<Advertiser>, targets: map<string, JsNum>): string {
    Joined(ads, ad => Line(ad, targets))
  }

  /** The whole message: the header and one line per record. */
  function Message(ads: seq<Advertiser>, targets: map<string, JsNum>): string {
    Header + Lines(ads, targets)
  }

  /** The `forEach` that grows the message with `+=`. */
  method BuildMessage(ads: seq<Advertiser>, targets: map<string, JsNum>) returns (message: string)
    ensures message == Message(ads, targets)
  {
    message := Header;
    for i := 0 to |ads|
      invariant message == Header + Lines(ads[..i], targets)
    {
      var ad := ads[i];
      var line := Line(ad, targets);
      LinesStep(ads, targets, i);
      message := message + line;
    }
    assert ads[..|ads|] == ads;
  }

  // ---------------------------------------------------------------------
  // Lemmas.

  /** One more record gives one more line. */
  lemma LinesStep(ads: seq<Advertiser>, targets: map<string, JsNum>, i: nat)
    requires i < |ads|
    ensures Lines(ads[..i + 1], targets) == Lines(ads[..i], targets) + Line(ads[i], targets)
  {
    assert ads[..i + 1][..i] == ads[..i];
  }

  lemma {:induction false} JoinedConcat(a: seq<Advertiser>, b: seq<Advertiser>, render: Advertiser -> string)
    ensures Joined(a + b, render) == Joined(a, render) + Joined(b, render)
    decreases |b|
  {
    if b == [] {
      assert a + b == a;
    } else {
      var b' := b[..|b| - 1];
      assert (a + b)[..|a + b| - 1] == a + b';
      JoinedConcat(a, b', render);
    }
  }

  /** The lines of a concatenation are the lines of each part. */
  lemma LinesConcat(a: seq<Advertiser>, b: seq<Advertiser>, targets: map<string, JsNum>)
    ensures Lines(a + b, targets) == Lines(a, targets) + Lines(b, targets)
  {
    JoinedConcat(a, b, ad => Line(ad, targets));
  }

  /** A line carries the target suffix `(p%)` exactly when the looked-up
      target is positive: NaN, 0, negative and missing targets all give
      the short form, which ends with the click count. */
  lemma LineShowsTargetIff(ad: Advertiser, targets: map<string, JsNum>)
    ensures var line := Line(ad, targets);
            |line| >= 2 && line[|line| - 1] == '\n' &&
            (line[|line| - 2] == ')' <==> LookupTarget(targets, ad.id) > 0)
    ensures var line := Line(ad, targets);
            LookupTarget(targets, ad.id) > 0 ==> |line| >= 3 && line[|line| - 3] == '%'
  {
    var s := Subject(ad);
    NatToStringSpec(ad.clicks);
    var digits := NatToString(ad.clicks);
    assert s[|s| - 1] == digits[|digits| - 1];
  }

  /** A line starts with the advertiser's name. */
  lemma LineStartsWithName(ad: Advertiser, targets: map<string, JsNum>)
    ensures |ad.name| <= |Line(ad, targets)| && Line(ad, targets)[..|ad.name|] == ad.name
  {
    var line := Line(ad, targets);
    assert line == ad.name + line[|ad.name|..];
  }

  /** The number of newline characters in `s`. */
  function Newlines(s: string): (n: nat)
    ensures n <= |s|
  {
    if s == [] then 0 else Newlines(s[..|s| - 1]) + (if s[|s| - 1] == '\n' then 1 else 0)
  }

  lemma {:induction false} NewlinesConcat(a: string, b: string)
    ensures Newlines(a + b) == Newlines(a) + Newlines(b)
    decreases |b|
  {
    if b == [] {
      assert a + b == a;
    } else {
      var b' := b[..|b| - 1];
      assert (a + b)[..|a + b| - 1] == a + b';
      NewlinesConcat(a, b');
    }
  }

  lemma {:induction false} NoNewlines(s: string)
    requires forall i :: 0 <= i < |s| ==> s[i] != '\n'
    ensures Newlines(s) == 0
  {
    if s != [] {
      NoNewlines(s[..|s| - 1]);
    }
  }

  predicate OneLine(s: string) {
    forall i :: 0 <= i < |s| ==> s[i] != '\n'
  }

  /** Each record gives exactly one line: its text ends with the only
      newline in it, provided the name and id contain none. */
  lemma LineHasOneNewline(ad: Advertiser, targets: map<string, JsNum>)
    requires OneLine(ad.name) && OneLine(ad.id)
    ensures Newlines(Line(ad, targets)) == 1
  {
    DigitsOneLine(ad.clicks);
    var s := Subject(ad);
    assert OneLine(s);
    var target := LookupTarget(targets, ad.id);
    var body: string;
    if target > 0 {
      var t := NatToString(target);
      var p := PercentTenths(ad.clicks, target);
      var pct := PercentText(p);
      DigitsOneLine(target);
      DigitsOneLine(p / 10);
      assert OneLine(pct);
      body := s + " / " + t + " (" + pct + "%)";
      assert Line(ad, targets) == body + "\n";
    } else {
      body := s;
    }
    assert OneLine(body);
    NoNewlines(body);
    NewlinesConcat(body, "\n");
  }

  lemma DigitsOneLine(n: nat)
    ensures OneLine(NatToString(n))
  {
    NatToStringSpec(n);
  }

  /** The message has the two newlines of the header and one per record,
      so the records are listed one per line, none dropped, none merged. */
  lemma {:induction false} MessageNewlines(ads: seq<Advertiser>, targets: map<string, JsNum>)
    requires forall j :: 0 <= j < |ads| ==> OneLine(ads[j].name) && OneLine(ads[j].id)
    ensures Newlines(Message(ads, targets)) == |ads| + 2
  {
    LinesNewlines(ads, targets);
    NewlinesConcat(Header, Lines(ads, targets));
    assert Newlines(Header) == 2 by {
      NoNewlines(Header[..|Header| - 2]);
      assert Header[..|Header| - 1][..|Header| - 2] == Header[..|Header| - 2];
    }
  }

  lemma {:induction false} LinesNewlines(ads: seq<Advertiser>, targets: map<string, JsNum>)
    requires forall j :: 0 <= j < |ads| ==> OneLine(ads[j].name) && OneLine(ads[j].id)
    ensures Newlines(Lines(ads, targets)) == |ads|
  {
    if ads != [] {
      LinesNewlines(ads[..|ads| - 1], targets);
      LineHasOneNewline(ads[|ads| - 1], targets);
      NewlinesConcat(Lines(ads[..|ads| - 1], targets), Line(ads[|ads| - 1], targets));
    }
  }

  /** A record whose id has target 150 and 1,234 clicks is shown with its
      target and 822.7% (1234 / 150 = 8.2266…). */
  lemma AcmeWithTarget()
    ensures Line(Advertiser("Acme", "42", 1234), map["42" := Num(150)])
            == "Acme (ID: 42)" + Arrow + "1234" + " / " + "150" + " (" + "822.7" + "%)\n"
  {
    var ad, m := Advertiser("Acme", "42", 1234), map["42" := Num(150)];
    assert LookupTarget(m, "42") == 150;
    var pct := PercentText(PercentTenths(1234, 150));
    assert Line(ad, m) == Subject(ad) + " / " + NatToString(150) + " (" + pct + "%)\n";
    AcmePercent();
    AcmeSubject();
    Text150();
  }

  lemma AcmePercent()
    ensures PercentText(PercentTenths(1234, 150)) == "822.7"
  {
    assert PercentTenths(1234, 150) == 8227;
    Text822();
  }

  lemma AcmeSubject()
    ensures Subject(Advertiser("Acme", "42", 1234)) == "Acme (ID: 42)" + Arrow + "1234"
  {
    Text1234();
  }

  /** A NaN target (a sheet cell that does not parse) is shown as no target. */
  lemma AcmeWithNaNTarget()
    ensures Line(Advertiser("Acme", "42", 7), map["42" := NaN]) == "Acme (ID: 42)" + Arrow + "7\n"
  {
    assert NatToString(7) == "7";
  }

  lemma Text1234()
    ensures NatToString(1234) == "1234"
  {
    assert NatToString(12) == "12";
    assert NatToString(123) == "123";
  }

  lemma Text150()
    ensures NatToString(150) == "150"
  {
    assert NatToString(15) == "15";
  }

  lemma Text822()
    ensures PercentText(8227) == "822.7"
  {
    assert NatToString(82) == "82";
    assert NatToString(822) == "822";
  }
}
