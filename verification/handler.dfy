/**
 The "judge" button handler as one pure decision procedure: the gate on the
 loaded table and the typed name, the fuzzy-match confidence threshold, the
 lookup of the first table row for the matched university, the comment, and
 the text offered for sharing.
 */
module Handler {
  import opened Options
  import opened Strings
  import opened Decimal
  import opened Comment

  /** One row of the university table: its `University` and `Deviation` columns. */
  datatype Row = Row(university: string, deviation: int)

  /** What the fuzzy matcher returns: the best candidate name and its similarity score. */
  datatype Match = Match(name: string, confidence: int)

  /** What one press of the button produces. */
  datatype Outcome =
    | DataNotLoaded                 // the table is empty (e.g. the data file was missing)
    | AskForName                    // the table is loaded but nothing was typed
    | NotFound(query: string)       // the best candidate was not similar enough
    | Judged(name: string, deviation: int, comment: string, shareText: string)

  /** Matches scoring below this are treated as "no such university". */
  const MinConfidence: int := 60

  /** The `University` column, in table order. */
  function Universities(table: seq<Row>): (names: seq<string>)
    ensures |names| == |table|
    ensures forall i :: 0 <= i < |table| ==> names[i] == table[i].university
  {
    if |table| == 0 then [] else [table[0].university] + Universities(table[1..])
  }

  /** Row `i` is the first row of `table` whose `University` is `name`. */
  ghost predicate IsFirstRowFor(table: seq<Row>, name: string, i: int)
  {
    && 0 <= i < |table|
    && table[i].university == name
    && forall j :: 0 <= j < i ==> table[j].university != name
  }

  /** Position of the first row whose `University` equals `name` (what `.iloc[0]` picks). */
  function FirstRowIndex(table: seq<Row>, name: string): (i: nat)
    requires name in Universities(table)
    ensures IsFirstRowFor(table, name, i)
  {
    if table[0].university == name then 0
    else
      assert Universities(table) == [table[0].university] + Universities(table[1..]);
      1 + FirstRowIndex(table[1..], name)
  }

  /** No two rows name the same university. */
  ghost predicate UniqueNames(table: seq<Row>)
  {
    forall i, j :: 0 <= i < j < |table| ==> table[i].university != table[j].university
  }

  /** When names are unique the "first row" is simply the row with that name. */
  lemma FirstRowOfUniqueTable(table: seq<Row>, k: int)
    requires UniqueNames(table) && 0 <= k < |table|
    ensures FirstRowIndex(table, table[k].university) == k
  {
  }

  // ---------------------------------------------------------------------------
  // Share text
  // ---------------------------------------------------------------------------

  const ShareOpening: string := "私の学歴は...【"
  const ScoreOpening: string := "（偏差値"
  const ScoreClosing: string := "）】でした！"
  const VerdictOpening: string := "\n判定結果：「"
  const ShareClosing: string := "」\n#学歴判定機 #wakatte_tv"

  /**
   The text prefilled into the share link: the matched name, the rendered
   deviation and the verdict line, in that order, then the fixed hashtags.
   It opens with the fixed opening, mentions all three pieces and ends with
   the hashtags; `ShareTextRoundTrip` shows the pieces can be read back.
   */
  function ShareText(name: string, deviation: int, verdict: string): (r: string)
    ensures ShareOpening <= r
    ensures Contains(r, name) && Contains(r, IntToString(deviation)) && Contains(r, verdict)
    ensures |ShareClosing| <= |r| && r[|r| - |ShareClosing|..] == ShareClosing
  {
    var numeral := IntToString(deviation);
    var upToName := ShareOpening + name;
    var upToNumeral := upToName + ScoreOpening + numeral;
    var upToVerdict := upToNumeral + ScoreClosing + VerdictOpening + verdict;
    var r := upToVerdict + ShareClosing;
    ContainsOwnSuffix(ShareOpening, name);
    ContainsFromPrefix(upToName, r, name);
    ContainsOwnSuffix(upToName + ScoreOpening, numeral);
    ContainsFromPrefix(upToNumeral, r, numeral);
    ContainsOwnSuffix(upToNumeral + ScoreClosing + VerdictOpening, verdict);
    ContainsFromPrefix(upToVerdict, r, verdict);
    r
  }

  /** The three pieces a share text carries. */
  datatype ShareParts = ShareParts(name: string, deviation: int, verdict: string)

  /** `s` without the prefix `p`, if `s` starts with `p`. */
  function DropPrefix(s: string, p: string): (r: Option<string>)
    ensures r.Some? <==> p <= s
    ensures r.Some? ==> s == p + r.value
  {
    if p <= s then Some(s[|p|..]) else None
  }

  /** `s` without the suffix `p`, if `s` ends with `p`. */
  function DropSuffix(s: string, p: string): (r: Option<string>)
    ensures r.Some? <==> |p| <= |s| && s[|s| - |p|..] == p
    ensures r.Some? ==> s == r.value + p
  {
    if |p| <= |s| && s[|s| - |p|..] == p then Some(s[..|s| - |p|]) else None
  }

  /** Position of the last line feed among the first `n` characters of `s`, or -1 if there is none. */
  function LastLineFeed(s: string, n: nat): (k: int)
    requires n <= |s|
    ensures -1 <= k < n
    ensures k >= 0 ==> s[k] == '\n'
    ensures forall j :: k < j < n ==> s[j] != '\n'
  {
    if n == 0 then -1
    else if s[n - 1] == '\n' then n - 1
    else LastLineFeed(s, n - 1)
  }

  /**
   Start of the run of characters a rendered integer can contain that ends
   just before position `k` of `s`: the run is as long as possible.
   */
  function NumeralRunStart(s: string, k: nat): (j: nat)
    requires k <= |s|
    ensures j <= k
    ensures forall i :: j <= i < k ==> IsNumeralChar(s[i])
    ensures j > 0 ==> !IsNumeralChar(s[j - 1])
  {
    if k > 0 && IsNumeralChar(s[k - 1]) then NumeralRunStart(s, k - 1) else k
  }

  /**
   Reads the first line of a share text, less its opening, back into the name
   and the deviation: the deviation is the numeral just before the closing of
   the score part, and the name is what precedes the score part.
   */
  function ParseScore(head: string): Option<(string, int)>
  {
    var scored :- DropSuffix(head, ScoreClosing);
    var j := NumeralRunStart(scored, |scored|);
    var name :- DropSuffix(scored[..j], ScoreOpening);
    var deviation :- ParseInt(scored[j..]);
    Some((name, deviation))
  }

  /**
   Reads a share text back into its pieces: name and deviation from the part
   before the last line feed of the body, the verdict from what lies between
   the verdict opening and the closing hashtags. The verdict is a single line,
   so the last line feed is the one that opens it, whatever the name holds.
   */
  function ParseShare(s: string): Option<ShareParts>
  {
    var afterOpening :- DropPrefix(s, ShareOpening);
    var body :- DropSuffix(afterOpening, ShareClosing);
    ParseBody(body)
  }

  /** Reads the part of a share text between its fixed opening and its closing hashtags. */
  function ParseBody(body: string): Option<ShareParts>
  {
    var k := LastLineFeed(body, |body|);
    if k < 0 then None
    else
      var verdict :- DropPrefix(body[k..], VerdictOpening);
      var score :- ParseScore(body[..k]);
      Some(ShareParts(score.0, score.1, verdict))
  }

  /** The last line feed of `a + b` is the first character of `b` when the rest of `b` has none. */
  lemma LastLineFeedAt(a: string, b: string)
    requires |b| > 0 && b[0] == '\n'
    requires forall j :: 0 < j < |b| ==> b[j] != '\n'
    ensures LastLineFeed(a + b, |a + b|) == |a|
  {
    var s := a + b;
    assert s[|a|] == '\n';
    assert forall j :: |a| < j < |s| ==> s[j] == b[j - |a|];
  }

  /** After its opening line feed, the verdict part has no other: the verdict is a single line. */
  lemma VerdictPartOneBreak(verdict: string)
    requires IsOneLine(verdict)
    ensures forall j :: 0 < j < |VerdictOpening + verdict| ==> (VerdictOpening + verdict)[j] != '\n'
  {
  }

  /** The numeral run at the end of `a + d` is exactly `d` when `a` ends in a non-numeral. */
  lemma NumeralRunAfter(a: string, d: string)
    requires |a| > 0 && !IsNumeralChar(a[|a| - 1])
    requires AllNumeralChars(d)
    ensures NumeralRunStart(a + d, |a + d|) == |a|
  {
    var s := a + d;
    var j := NumeralRunStart(s, |s|);
    assert s[|a| - 1] == a[|a| - 1];
    assert forall i :: |a| <= i < |s| ==> s[i] == d[i - |a|];
  }

  /** The score part round-trips: name and deviation are read back from it. */
  lemma ParseScoreRoundTrip(name: string, deviation: int)
    ensures ParseScore(name + ScoreOpening + IntToString(deviation) + ScoreClosing) == Some((name, deviation))
  {
    var numeral := IntToString(deviation);
    var scored := (name + ScoreOpening) + numeral;
    assert DropSuffix(scored + ScoreClosing, ScoreClosing) == Some(scored);
    NumeralRunAfter(name + ScoreOpening, numeral);
    assert scored[..|name + ScoreOpening|] == name + ScoreOpening;
    assert scored[|name + ScoreOpening|..] == numeral;
    assert DropSuffix(name + ScoreOpening, ScoreOpening) == Some(name);
    IntToStringRoundTrip(deviation);
  }

  /** The share text is its body, the score part and the verdict, between the fixed opening and closing. */
  lemma ShareTextFrame(name: string, deviation: int, verdict: string)
    ensures ShareText(name, deviation, verdict)
            == ShareOpening + ((name + ScoreOpening + IntToString(deviation) + ScoreClosing) + VerdictOpening + verdict) + ShareClosing
  {
    Regroup(ShareOpening, name, ScoreOpening, IntToString(deviation), ScoreClosing, VerdictOpening, verdict, ShareClosing);
  }

  /** Concatenation regrouped so that the middle pieces form one block. */
  lemma Regroup(p1: string, p2: string, p3: string, p4: string, p5: string, p6: string, p7: string, p8: string)
    ensures p1 + p2 + p3 + p4 + p5 + p6 + p7 + p8 == p1 + ((p2 + p3 + p4 + p5) + p6 + p7) + p8
  {
  }

  /** Parsing strips the fixed opening and closing and hands the rest to the body parser. */
  lemma ParseShareFrame(body: string)
    ensures ParseShare(ShareOpening + body + ShareClosing) == ParseBody(body)
  {
    var s := ShareOpening + body + ShareClosing;
    assert s == ShareOpening + (body + ShareClosing);
    assert DropPrefix(s, ShareOpening) == Some(body + ShareClosing);
    assert DropSuffix(body + ShareClosing, ShareClosing) == Some(body);
  }

  /**
   Nothing is lost in the share text: the name, the deviation and the
   verdict line can all be read back from it, whatever characters the name
   holds, as long as the verdict is a single line.
   */
  lemma ShareTextRoundTrip(name: string, deviation: int, verdict: string)
    requires IsOneLine(verdict)
    ensures ParseShare(ShareText(name, deviation, verdict)) == Some(ShareParts(name, deviation, verdict))
  {
    var head := name + ScoreOpening + IntToString(deviation) + ScoreClosing;
    ShareTextFrame(name, deviation, verdict);
    ParseShareFrame(head + VerdictOpening + verdict);
    ParseBodyRoundTrip(head, verdict);
    ParseScoreRoundTrip(name, deviation);
  }

  /** The body splits at its last line feed into the score part and the verdict. */
  lemma ParseBodyRoundTrip(head: string, verdict: string)
    requires IsOneLine(verdict)
    ensures ParseBody(head + VerdictOpening + verdict) == 
              (match ParseScore(head)
               case None => None
               case Some(score) => Some(ShareParts(score.0, score.1, verdict)))
  {
    var tail := VerdictOpening + verdict;
    var body := head + tail;
    assert head + VerdictOpening + verdict == body;
    VerdictPartOneBreak(verdict);
    LastLineFeedAt(head, tail);
    assert body[|head|..] == tail && body[..|head|] == head;
    assert DropPrefix(tail, VerdictOpening) == Some(verdict);
  }

  // ---------------------------------------------------------------------------
  // The handler
  // ---------------------------------------------------------------------------

  /** The first row for `name` exists and carries `deviation`. */
  ghost predicate FirstDeviation(table: seq<Row>, name: string, deviation: int)
  {
    exists i :: IsFirstRowFor(table, name, i) && table[i].deviation == deviation
  }

  /**
   One press of the button, given the typed `query`, the loaded `table` and
   `m`, the fuzzy matcher's answer for `query` against the `University`
   column. The matcher always answers with one of the names it was offered;
   the row lookup depends on that, so it is required here for confident
   matches of a query that reached the matcher.
   */
  function Judge(query: string, table: seq<Row>, m: Match): (r: Outcome)
    requires |query| > 0 && |table| > 0 && m.confidence >= MinConfidence
             ==> m.name in Universities(table)
    ensures r.DataNotLoaded? <==> |table| == 0
    ensures r.AskForName? <==> |table| > 0 && |query| == 0
    ensures r.NotFound? <==> |table| > 0 && |query| > 0
                             && m.confidence < MinConfidence
    ensures r.NotFound? ==> r.query == query
    ensures r.Judged? <==> |table| > 0 && |query| > 0 && m.confidence >= MinConfidence
    ensures r.Judged? ==> && r.name == m.name
                          && FirstDeviation(table, r.name, r.deviation)
                          && r.comment == GetComment(r.deviation, r.name)
                          && |r.comment| > 0
                          && r.shareText == ShareText(r.name, r.deviation, FirstLine(r.comment))
  {
    if |query| > 0 && |table| > 0 then
      if m.confidence < MinConfidence then
        NotFound(query)
      else
        var row := table[FirstRowIndex(table, m.name)];
        var comment := GetComment(row.deviation, m.name);
        CommentFirstLine(row.deviation, m.name);
        Judged(m.name, row.deviation, comment, ShareText(m.name, row.deviation, FirstLine(comment)))
    else if |table| == 0 then
      DataNotLoaded
    else
      AskForName
  }

  /** The matcher's answer is only consulted when a name was typed and the table is loaded. */
  lemma MatchIgnoredUnlessAsked(query: string, table: seq<Row>, m1: Match, m2: Match)
    requires |query| == 0 || |table| == 0
    ensures Judge(query, table, m1) == Judge(query, table, m2)
    ensures !Judge(query, table, m1).Judged?
  {
  }

  /**
   What a judged result shares: the name, the deviation and the verdict line
   can be read back from the share text, and
   the verdict is the band's label unless the name has an override, in which
   case it is the whole override text.
   */
  lemma JudgedShareCarriesVerdict(name: string, deviation: int)
    ensures var comment := GetComment(deviation, name);
            && |comment| > 0
            && ParseShare(ShareText(name, deviation, FirstLine(comment)))
               == Some(ShareParts(name, deviation, if IsOverridden(name) then comment else Label(BandOf(deviation))))
  {
    CommentFirstLine(deviation, name);
    ShareTextRoundTrip(name, deviation, FirstLine(GetComment(deviation, name)));
  }
}
