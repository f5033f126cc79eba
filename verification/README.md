# wakatte-hantei result pipeline in Dafny

A model of the result pipeline of the "学歴判定機" joke web app (`app.py`).
The user types a university name. The app fuzzy-matches it against the
`University` column of a table. It rejects matches whose confidence is below
60 and takes the `Deviation` of the first row with the matched name. It then
prints a canned comment and builds a text to share on X.

The model has five modules, and each is a file:

- `options.dfy` (`Options`) holds the `Option` type used by every reader that
  can fail and by the override lookup, which may find no rule.
- `strings.dfy` (`Strings`) holds the text primitives the pipeline uses.
  - Python's substring test `sub in s` (`Contains`).
  - `s.splitlines()[0]` (`FirstLine`). A line ends at any of the ten characters
    `str.splitlines` treats as line boundaries. The empty text has no first line,
    because indexing `[0]` fails on it.
- `decimal.dfy` (`Decimal`) holds Python's `str(n)` for an integer deviation
  (`IntToString`) and its inverse, the reader `ParseInt`. `IsCanonicalNumeral`
  describes the form `str` writes: no leading zeros and no "-0".
- `comment.dfy` (`Comment`) holds `get_comment`.
  - Two name overrides are tried in order: a name containing "帝京平成" first,
    then one containing "日本体育".
  - Otherwise a descending `>=` cascade places the score in one of six bands,
    cut at 70/65/60/55/50.
  - Each band's text is its bracketed label, a line feed, and a remark.
- `handler.dfy` (`Handler`) holds the button handler as one pure function,
  `Judge`. It takes the typed query, the table and the matcher's answer, and
  returns an `Outcome`:
  - `DataNotLoaded`
  - `AskForName`
  - `NotFound`
  - `Judged`, which carries the name, the deviation, the comment and the share text.

  The share text has an inverse, the parser `ParseShare`. It splits the body at
  its last line feed, so a name may contain any characters.

  The table's university names need not be unique. `Judge` takes the first row
  with the matched name, as `.iloc[0]` does, and `FirstRowOfUniqueTable` shows
  that for unique names this is simply the row with that name. No adjustment is
  applied to the deviation: `Judge` bands exactly the `Deviation` cell of that
  row.

## Model

| member | source | states |
|---|---|---|
| Comment.GetComment | app.py:23-42 | A name containing "帝京平成" gets that fixed joke whatever the score. A name containing "日本体育" but not "帝京平成" gets the second joke, so the first override wins when both occur. Any other name gets the text of the band whose interval holds the score. |
| Comment.GetCommentIsRuleTable | app.py:25-42 | The comment is the text of the first override, in the fixed order, whose marker occurs in the name. Only when no override fires is it the text of the score's band. |
| Comment.FirstOverride | app.py:25-28 | The result is absent exactly when no rule's marker occurs in the name. When present, it is the text of a rule that fires with no earlier rule firing. |
| Comment.BandOf | app.py:31-42 | The score lies in the half-open interval of the returned band and in no other band's interval, so the six bands partition the integers. |
| Comment.CutGoesUp | app.py:31-42 | A score exactly on a cut (50, 55, 60, 65, 70) gets the higher of the two bands that meet there. One below the cut gets the lower band. |
| Comment.BandMonotone | app.py:31-42 | A higher score never gets a band of lower rank. |
| Comment.BandText | app.py:32-42 | The six band texts, each its label, a line feed and its remark. Each is non-empty, and its first line is exactly its bracketed label. |
| Comment.BandTextInjective | app.py:32-42 | Two bands have the same text exactly when they are the same band. |
| Comment.TeikyoHeiseiJokeOneLine | app.py:26 | The first override text is non-empty and contains no line boundary. |
| Comment.NittaiJokeOneLine | app.py:28 | The second override text is non-empty and contains no line boundary. |
| Comment.CommentFirstLine | app.py:25-42 | Every comment is non-empty. Its first line is the whole text for an overridden name, and otherwise the label of the score's band. |
| Comment.CommentDeterminesBand | app.py:31-42 | For a name without an override, two scores get the same comment exactly when they fall in the same band. |
| Strings.Contains | app.py:25-28 | Python's `sub in s`. It holds when `s` starts with `sub`, and only when `sub` is no longer than `s`. `ContainsIffOccurs` characterises it fully. |
| Strings.ContainsIffOccurs | app.py:25-28 | The recursive substring test holds exactly when the substring occurs at some position. |
| Strings.FirstLine | app.py:92 | The result is a prefix of the text with no line boundary in it. It is followed either by the end of the text or by a line boundary. |
| Strings.FirstLineUnique | app.py:92 | A line satisfies that description exactly when it is the result of `FirstLine`. |
| Decimal.IntToString | app.py:78 | The rendered deviation is non-empty and made of digits and a minus sign. It is a single line, and it starts with '-' exactly when the deviation is negative. |
| Decimal.IntToStringRoundTrip | app.py:92 | Reading the rendered deviation back gives the same integer. |
| Decimal.IntToStringCanonical | app.py:78 | Every rendered deviation has the form `str` writes: an optional minus sign, then digits with no leading zero, and never "-0". |
| Decimal.CanonicalNumeralIsRendered | app.py:78 | Conversely, every numeral of that form is the rendering of the integer it reads as, so the renderings are exactly the canonical numerals. |
| Decimal.IntToStringInjective | app.py:92 | Two deviations render alike exactly when they are equal. |
| Handler.Universities | app.py:63 | The name list has one entry per row, in table order, and each entry is that row's `University`. |
| Handler.FirstRowIndex | app.py:74 | For a name in the `University` column, the result is the index of a row with that name, and no earlier row has it. |
| Handler.FirstRowOfUniqueTable | app.py:74 | When no name repeats, the first row for a row's name is that row. |
| Handler.Judge | app.py:59-110 | The outcomes, in order of precedence: (1) Data-not-loaded exactly when the table is empty, whatever was typed. (2) Ask-for-name exactly when the table is loaded and nothing was typed. (3) Not-found, with the query, exactly when both are present and the confidence is below 60. (4) Otherwise judged. A judged outcome carries the matched name, the deviation of the first row with that name, `get_comment` of that deviation and name, and the share text built from the name, the deviation and the comment's first line. |
| Handler.MatchIgnoredUnlessAsked | app.py:60-64 | With an empty query or an empty table, the matcher's answer does not affect the outcome, and nothing is judged. |
| Handler.ShareTextRoundTrip | app.py:92 | For any name and a single-line verdict, parsing the share text gives back exactly the name, the deviation and the verdict line placed in it, in that order. |
| Handler.ShareText | app.py:92 | The share f-string. It opens with the fixed opening "私の学歴は...【", contains the name, the rendered deviation and the verdict line, and ends with the fixed hashtags. `ShareTextRoundTrip` shows the three pieces appear in that order and read back exactly. |
| Handler.JudgedShareCarriesVerdict | app.py:81-92 | The share text of any judged name reads back as that name and deviation. For a name without an override, the verdict read back is the band's label. For an overridden name, it is the whole override text. |

## Left out

- Streamlit calls: page setup, title, input box, button, markdown, badge,
  divider, affiliate blurb and footer. These are presentation. Which messages
  appear is modelled by the `Outcome` constructor; their wording is not.
- Loading `university_data_dummy.csv` and `@st.cache_data`. These are file I/O
  and caching. The table is an input, and a missing file is an empty table, as
  the loader returns an empty frame.
- `process.extractOne`. The similarity metric is third-party code. Its answer
  (best name and confidence) is a parameter of `Judge`. `Judge` requires that a
  confident answer name a university in the table, because the matcher only
  answers with names from the list it is given and the row lookup needs the
  name to be there.
- Handler.Judge: the deviation is an integer. The CSV column could hold
  floating-point values, which `str` would render differently. They would also
  band differently: 69.5 fails `>= 70` and gets 【エリート】, and a NaN fails
  every test and gets 【Fラン（仮）】. The rendering, the partition and the
  banding are stated over integers only.
- The share URL. The text is pasted into a query string without
  percent-encoding, so no claim is made about the URL.
