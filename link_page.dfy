/** linkPage.js: collect the `Profile URL` column of a CSV export and turn
    it into an HTML fragment of one link per URL, one link per line. */
module LinkPage {
  import opened Wrappers
  import opened Text

  /** The `data` handler pushes every row's `Profile URL`, whatever it
      holds, so `urls` lists the rows' URLs in row order. */
  method CollectUrls(rows: seq<string>) returns (urls: seq<string>)
    ensures |urls| == |rows|
    ensures forall k :: 0 <= k < |rows| ==> urls[k] == rows[k]
  {
    urls := [];
    for i := 0 to |rows|
      invariant urls == rows[..i]
    {
      urls := urls + [rows[i]];
      assert rows[..i + 1] == rows[..i] + [rows[i]];
    }
  }

  // ---------------------------------------------------------------------
  // One link

  const AnchorOpen := "<a href=\""
  const AnchorMiddle := "\" target=\"_blank\" rel=\"noopener noreferrer\">"
  const AnchorClose := "</a><br>"
  /** The length of an anchor line without its two copies of the URL. */
  const AnchorFixed := |AnchorOpen| + |AnchorMiddle| + |AnchorClose|

  /** None of the fixed parts has a line break. */
  lemma {:induction false} TemplateHasNoNewline()
    ensures '\n' !in AnchorOpen && '\n' !in AnchorMiddle && '\n' !in AnchorClose
  {
  }

  /** The line `urls.map` makes of one URL: the URL, unescaped, as both
      the link target and the link text. */
  function Anchor(url: string): (line: string)
    ensures |line| == AnchorFixed + 2 * |url|
    ensures StartsWith(line, AnchorOpen) && EndsWith(line, AnchorClose)
    ensures line[|AnchorOpen|..|AnchorOpen| + |url|] == url
    ensures '\n' in line <==> '\n' in url
  {
    TemplateHasNoNewline();
    var line := AnchorOpen + url + AnchorMiddle + url + AnchorClose;
    assert line[|line| - |AnchorClose|..] == AnchorClose;
    line
  }

  /** The rest of the line's layout: the middle follows the first copy of
      the URL, and the second copy sits right before the closing tag. */
  lemma {:induction false} AnchorLayout(url: string)
    ensures var line := Anchor(url);
            && line[|AnchorOpen| + |url|..|AnchorOpen| + |url| + |AnchorMiddle|] == AnchorMiddle
            && line[|line| - |AnchorClose| - |url|..|line| - |AnchorClose|] == url
  {
    var head := AnchorOpen + url + AnchorMiddle;
    var line := head + url + AnchorClose;
    assert Anchor(url) == line;
    assert line[|head|..|head| + |url|] == url;
    assert head[|AnchorOpen| + |url|..] == AnchorMiddle;
  }

  /** Strip the fixed parts off an anchor line: the URL is the text
      between the opening and the middle, and must occur again as the
      link text. */
  function ParseAnchor(line: string): (url: Option<string>)
    ensures url.Some? ==> Anchor(url.value) == line
  {
    if |line| < AnchorFixed || (|line| - AnchorFixed) % 2 != 0 then None
    else
      var u := line[|AnchorOpen|..|AnchorOpen| + (|line| - AnchorFixed) / 2];
      if Anchor(u) == line then Some(u) else None
  }

  /** Every anchor line parses back to its URL. */
  lemma {:induction false} AnchorRoundTrip(url: string)
    ensures ParseAnchor(Anchor(url)) == Some(url)
  {
    var line := Anchor(url);
    assert (|line| - AnchorFixed) / 2 == |url|;
  }

  // ---------------------------------------------------------------------
  // The fragment

  /** `urls.map(...)`: one anchor line per URL, in order. */
  function Anchors(urls: seq<string>): seq<string> {
    seq(|urls|, k requires 0 <= k < |urls| => Anchor(urls[k]))
  }

  /** `htmlContent`: the anchor lines joined with line breaks; no URLs give
      the empty string. */
  function Fragment(urls: seq<string>): (html: string)
    ensures html == "" <==> urls == []
    ensures urls != [] ==> StartsWith(html, Anchor(urls[0]))
  {
    Join(Anchors(urls), '\n')
  }

  /** Read the lines back, failing on any line that is not an anchor. */
  function ParseLines(lines: seq<string>): (urls: Option<seq<string>>)
    ensures urls.Some? ==> Anchors(urls.value) == lines
  {
    if lines == [] then Some([])
    else match (ParseAnchor(lines[0]), ParseLines(lines[1..]))
      case (Some(u), Some(us)) =>
        var r := [u] + us;
        assert Anchors(r) == lines by {
          forall k | 0 <= k < |r|
            ensures Anchors(r)[k] == lines[k]
          {
            if k > 0 {
              assert r[k] == us[k - 1] && Anchors(us)[k - 1] == lines[1..][k - 1];
            }
          }
        }
        Some(r)
      case _ => None
  }

  /** Split a fragment at its line breaks and read every line back. Once
      it succeeds, serialising its result gives the fragment again. */
  function ParseFragment(html: string): (urls: Option<seq<string>>)
    ensures urls.Some? ==> Fragment(urls.value) == html
  {
    if html == "" then Some([])
    else
      JoinSplit(html, '\n');
      ParseLines(Split(html, '\n'))
  }

  /** When no URL holds a line break, the fragment has exactly one line per
      URL, in order, and so one line break fewer than URLs: none trails. */
  lemma {:induction false} FragmentLines(urls: seq<string>)
    requires urls != []
    requires forall k :: 0 <= k < |urls| ==> '\n' !in urls[k]
    ensures Split(Fragment(urls), '\n') == Anchors(urls)
    ensures Count(Fragment(urls), '\n') == |urls| - 1
  {
    SplitJoin(Anchors(urls), '\n');
  }

  lemma {:induction false} ParseAnchors(urls: seq<string>)
    ensures ParseLines(Anchors(urls)) == Some(urls)
  {
    if urls != [] {
      var lines := Anchors(urls);
      assert lines[1..] == Anchors(urls[1..]);
      ParseAnchors(urls[1..]);
      AnchorRoundTrip(urls[0]);
      assert [urls[0]] + urls[1..] == urls;
    }
  }

  /** Round trip: URLs without line breaks are recovered from the
      fragment. */
  lemma {:induction false} FragmentRoundTrip(urls: seq<string>)
    requires forall k :: 0 <= k < |urls| ==> '\n' !in urls[k]
    ensures ParseFragment(Fragment(urls)) == Some(urls)
  {
    if urls != [] {
      FragmentLines(urls);
      ParseAnchors(urls);
    }
  }
}
