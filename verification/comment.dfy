/**
 The comment classifier `get_comment(dev_val, univ_name)`: two name overrides,
 checked in a fixed order, and otherwise a descending threshold cascade that
 puts the deviation score into one of six bands, each with one fixed text.
 */
module Comment {
  import opened Options
  import opened Strings

  // ---------------------------------------------------------------------------
  // Bands
  // ---------------------------------------------------------------------------

  /** The six bands, from the top ("god") down to the bottom ("F-rank"). */
  datatype Band = God | Elite | Upper | Ordinary | Borderline | Bottom

  /** Position of a band in the hierarchy: 0 for the bottom band up to 5 for the top. */
  function Rank(b: Band): nat
  {
    match b
    case Bottom => 0
    case Borderline => 1
    case Ordinary => 2
    case Upper => 3
    case Elite => 4
    case God => 5
  }

  /** The cut points between adjacent bands, lowest first; band of rank k starts at Cuts[k - 1]. */
  const Cuts: seq<int> := [50, 55, 60, 65, 70]

  /**
   The band table read as half-open intervals: the band of rank k holds the
   scores from Cuts[k - 1] (included) up to Cuts[k] (excluded); the bottom band
   has no lower end and the top band no upper end.
   */
  ghost predicate InBand(dev: int, b: Band)
  {
    var k := Rank(b);
    (k == 0 || Cuts[k - 1] <= dev) && (k == 5 || dev < Cuts[k])
  }

  /**
   The threshold cascade of the source: the first test `dev >= cut` that
   succeeds, trying the cuts from the highest down, picks the band.
   The bands partition the integers: `dev` lies in the returned band and in no other.
   */
  function BandOf(dev: int): (b: Band)
    ensures InBand(dev, b)
    ensures forall b' :: InBand(dev, b') ==> b' == b
  {
    if dev >= 70 then God
    else if dev >= 65 then Elite
    else if dev >= 60 then Upper
    else if dev >= 55 then Ordinary
    else if dev >= 50 then Borderline
    else Bottom
  }

  /** A score exactly on a cut belongs to the higher of the two bands that meet there. */
  lemma CutGoesUp(k: nat)
    requires 1 <= k <= 5
    ensures Rank(BandOf(Cuts[k - 1])) == k
    ensures Rank(BandOf(Cuts[k - 1] - 1)) == k - 1
  {
  }

  /** A higher score never gets a lower band. */
  lemma BandMonotone(lo: int, hi: int)
    requires lo <= hi
    ensures Rank(BandOf(lo)) <= Rank(BandOf(hi))
  {
  }

  /** The bracketed heading of a band's text. */
  function Label(b: Band): (heading: string)
    ensures |heading| > 0 && IsOneLine(heading)
  {
    match b
    case God => "【神】"
    case Elite => "【エリート】"
    case Upper => "【上位層】"
    case Ordinary => "【凡人】"
    case Borderline => "【ギリギリ】"
    case Bottom => "【Fラン（仮）】"
  }

  /** The remark on the second line of a band's text. */
  function Remark(b: Band): string
  {
    match b
    case God => "あなたは日本の宝です。将来、納税で我々を養ってください。"
    case Elite => "すごいですね。でも東大には勝てませんよ？"
    case Upper => "まあまあ賢い。でも、世の中には上がいます。"
    case Ordinary => "THE 普通。量産型大学生として日本を支えてください。"
    case Borderline => "日東駒専レベル。遊んでないで資格の一つでも取ったら？"
    case Bottom => "wakatte.tvならマイクを向けられないレベルです。バイトリーダー目指して頑張れ。"
  }

  /**
   The full two-line text of a band: its label, a line feed, its remark. What
   the share text quotes of it, its first line, is exactly the label.
   */
  function BandText(b: Band): (text: string)
    ensures |text| > 0 && FirstLine(text) == Label(b)
  {
    FirstLineOfBrokenText(Label(b), '\n', Remark(b));
    assert Label(b) + "\n" + Remark(b) == Label(b) + ['\n'] + Remark(b);
    Label(b) + "\n" + Remark(b)
  }

  /** Different bands have different texts, so the text tells which band was chosen. */
  lemma BandTextInjective(b: Band, c: Band)
    ensures BandText(b) == BandText(c) <==> b == c
  {
  }

  // ---------------------------------------------------------------------------
  // Name overrides
  // ---------------------------------------------------------------------------

  /** A name override: any name containing `marker` gets `text`, whatever its score. */
  datatype Override = Override(marker: string, text: string)

  const TeikyoHeisei: string := "帝京平成"
  const TeikyoHeiseiJoke: string := "ここがすごい！帝京平成大学！...って言いたいだけだろ？"
  const Nittai: string := "日本体育"
  const NittaiJoke: string := "筋肉は裏切らない。偏差値なんて気にするな。"

  /** The overrides in the order they are tried. */
  const Overrides: seq<Override> := [Override(TeikyoHeisei, TeikyoHeiseiJoke), Override(Nittai, NittaiJoke)]

  /** Rule `i` is the first of `rules` whose marker occurs in `name`. */
  ghost predicate FirstFiring(rules: seq<Override>, name: string, i: int)
  {
    && 0 <= i < |rules|
    && Contains(name, rules[i].marker)
    && forall j :: 0 <= j < i ==> !Contains(name, rules[j].marker)
  }

  /** The text of the first rule (in order) whose marker occurs in `name`, if any rule fires. */
  function FirstOverride(rules: seq<Override>, name: string): (r: Option<string>)
    ensures r.None? <==> forall i :: 0 <= i < |rules| ==> !Contains(name, rules[i].marker)
    ensures r.Some? ==> exists i :: FirstFiring(rules, name, i) && r.value == rules[i].text
  {
    if |rules| == 0 then None
    else if Contains(name, rules[0].marker) then Some(rules[0].text)
    else FirstOverride(rules[1..], name)
  }

  // ---------------------------------------------------------------------------
  // The classifier
  // ---------------------------------------------------------------------------

  /**
   `get_comment(dev_val, univ_name)`: the Teikyo Heisei override beats the Nittai
   override, either beats the score, and otherwise the text is that of the
   band whose interval holds the score.
   */
  function GetComment(dev: int, name: string): (r: string)
    ensures Contains(name, TeikyoHeisei) ==> r == TeikyoHeiseiJoke
    ensures !Contains(name, TeikyoHeisei) && Contains(name, Nittai) ==> r == NittaiJoke
    ensures !Contains(name, TeikyoHeisei) && !Contains(name, Nittai) ==>
              forall b :: InBand(dev, b) ==> r == BandText(b)
  {
    if Contains(name, TeikyoHeisei) then TeikyoHeiseiJoke
    else if Contains(name, Nittai) then NittaiJoke
    else BandText(BandOf(dev))
  }

  /**
   The cascade is the ordered rule table at work: the first override whose
   marker occurs in the name decides, and only when none does is the score's
   band consulted.
   */
  lemma GetCommentIsRuleTable(dev: int, name: string)
    ensures GetComment(dev, name) == match FirstOverride(Overrides, name)
                                     case Some(text) => text
                                     case None => BandText(BandOf(dev))
  {
  }

  /** A name that triggers an override: its comment does not depend on the score. */
  predicate IsOverridden(name: string)
  {
    Contains(name, TeikyoHeisei) || Contains(name, Nittai)
  }

  /** The Teikyo Heisei override text is a single non-empty line. */
  lemma TeikyoHeiseiJokeOneLine()
    ensures |TeikyoHeiseiJoke| > 0 && IsOneLine(TeikyoHeiseiJoke)
  {
  }

  /** The Nittai override text is a single non-empty line. */
  lemma NittaiJokeOneLine()
    ensures |NittaiJoke| > 0 && IsOneLine(NittaiJoke)
  {
  }

  /**
   The first line of every comment: the label of the score's band, or for an
   overridden name the whole (single-line) override text.
   */
  lemma CommentFirstLine(dev: int, name: string)
    ensures |GetComment(dev, name)| > 0
    ensures IsOverridden(name) ==> FirstLine(GetComment(dev, name)) == GetComment(dev, name)
    ensures !IsOverridden(name) ==> FirstLine(GetComment(dev, name)) == Label(BandOf(dev))
  {
    var c := GetComment(dev, name);
    if IsOverridden(name) {
      TeikyoHeiseiJokeOneLine();
      NittaiJokeOneLine();
      assert c == TeikyoHeiseiJoke || c == NittaiJoke;
      FirstLineOfOneLine(c);
    } else {
      assert c == BandText(BandOf(dev));
    }
  }

  /** For a name without an override, two scores get the same comment exactly when they share a band. */
  lemma CommentDeterminesBand(d1: int, d2: int, name: string)
    requires !IsOverridden(name)
    ensures GetComment(d1, name) == GetComment(d2, name) <==> BandOf(d1) == BandOf(d2)
  {
  }
}
