/**
 * The banner renderer of create_banner.py: the fixed layout of the header
 * figure, the strings drawn into it, the markdown wrapper around the encoded
 * image and the sample-file names of the script entry point.
 *
 * Drawing and PNG/base64 encoding are not modelled: the encoder is a
 * parameter `encode: Figure -> string` whose output is treated as opaque.
 */
module Banner {
  import opened Strings

  // Brand colours used by the banner.
  const Forest := "#2D5A00"
  const Green := "#4F9E00"
  const Seafoam := "#3EB489"
  const Gray := "#666666"
  const White := "#FFFFFF"

  // Default arguments of create_banner.
  const DefaultAuthor := "Gregory Wheeler"
  const DefaultUrl := "github.com/gw/learning-machines"

  const Title := "Learning Machines"
  const BookSubtitle := "A Statistical Introduction"

  /** "► ", the prefix of the topic line. */
  const TopicPrefix := "\U{25BA} "
  /** " · ", the separator between author and URL. */
  const MetaSeparator := " \U{00B7} "

  /** The data-URI marker the notebook patcher looks for. */
  const Marker := "data:image/png;base64"

  const HeaderOpen := "<div style=\"margin-bottom: 32px;\">"
  const HeaderClose := "</div>\n"

  datatype Align = AlignLeft | AlignRight

  /** One `ax.text` call: position in axis units, content and typography. */
  datatype TextItem = TextItem(
    x: real, y: real, content: string,
    fontSize: nat, color: string, bold: bool, italic: bool, align: Align)

  /** The horizontal separator rule drawn with `ax.plot`. */
  datatype Rule = Rule(x0: real, x1: real, y: real, color: string, width: nat)

  /** The banner figure: a 10 x 2 axis box on a white background. */
  datatype Figure = Figure(
    width: real, height: real, background: string,
    title: TextItem, bookSubtitle: TextItem, rule: Rule,
    topic: TextItem, meta: TextItem)

  /** The topic line `f"► {subtitle}"`. */
  function TopicLine(subtitle: string): (r: string)
    ensures |r| == |subtitle| + 2
    ensures r[..2] == TopicPrefix && r[2..] == subtitle
  {
    TopicPrefix + subtitle
  }

  /** The URL as displayed: every "https://" removed, then every "http://". */
  function DisplayUrl(url: string): (r: string)
    ensures |r| <= |url|
  {
    ReplaceAll(ReplaceAll(url, "https://", ""), "http://", "")
  }

  /** A URL that mentions neither scheme is displayed unchanged. */
  lemma DisplayUrlPlain(url: string)
    requires !Contains(url, "https://") && !Contains(url, "http://")
    ensures DisplayUrl(url) == url
  {
    ReplaceAllAbsent(url, "https://", "");
    ReplaceAllAbsent(url, "http://", "");
  }

  /** A leading "https://" is stripped from an otherwise scheme-free URL. */
  lemma DisplayUrlStripsHttps(rest: string)
    requires !Contains(rest, "https://") && !Contains(rest, "http://")
    ensures DisplayUrl("https://" + rest) == rest
  {
    ReplaceAllLeading("https://", rest, "");
    ReplaceAllAbsent(rest, "https://", "");
    assert ReplaceAll("https://" + rest, "https://", "") == rest;
    ReplaceAllAbsent(rest, "http://", "");
  }

  /** "http://" followed by colon-free text never contains "https://": its only colon sits too early. */
  lemma HttpPrefixHasNoHttps(rest: string)
    requires ':' !in rest
    ensures !Contains("http://" + rest, "https://")
  {
    var s := "http://" + rest;
    var pat := "https://";
    ContainsIff(s, pat);
    forall i | 0 <= i
      ensures !OccursAt(s, pat, i)
    {
      if i + |pat| <= |s| {
        assert s[i..i + |pat|][5] == s[i + 5];
        if i >= 2 {
          assert s[i + 5] == rest[i - 2];
        } else {
          assert s[i..i + |pat|][4] == s[i + 4];
        }
      }
    }
  }

  /** A leading "http://" is stripped from a colon-free rest as well. */
  lemma DisplayUrlStripsHttp(rest: string)
    requires ':' !in rest
    ensures DisplayUrl("http://" + rest) == rest
  {
    HttpPrefixHasNoHttps(rest);
    ReplaceAllAbsent("http://" + rest, "https://", "");
    ReplaceAllLeading("http://", rest, "");
    MissingCharNotContained(rest, "http://", ':');
    ReplaceAllAbsent(rest, "http://", "");
  }

  /**
   * The metadata line: the author alone when the URL is empty (falsy),
   * otherwise author, " · " and the displayed URL.
   */
  function MetaText(author: string, githubUrl: string): (r: string)
    ensures |r| >= |author| && r[..|author|] == author
    ensures githubUrl == "" <==> r == author
    ensures githubUrl != "" ==> r[|author|..] == MetaSeparator + DisplayUrl(githubUrl)
  {
    var metaText := author;
    if githubUrl != "" then
      metaText + MetaSeparator + DisplayUrl(githubUrl)
    else
      metaText
  }

  /**
   * With a URL "https://" + rest whose rest has no colon (so no further
   * scheme), the metadata line is author, " · " and rest; for example
   * "A" and "https://example.com/x" give "A · example.com/x".
   */
  lemma MetaTextStripsHttps(author: string, rest: string)
    requires ':' !in rest
    ensures MetaText(author, "https://" + rest) == author + MetaSeparator + rest
  {
    MissingCharNotContained(rest, "https://", ':');
    MissingCharNotContained(rest, "http://", ':');
    DisplayUrlStripsHttps(rest);
  }

  /** Likewise with "http://": author " · " and the rest. */
  lemma MetaTextStripsHttp(author: string, rest: string)
    requires ':' !in rest
    ensures MetaText(author, "http://" + rest) == author + MetaSeparator + rest
  {
    DisplayUrlStripsHttp(rest);
  }

  /** The banner figure for a subtitle, author and URL. */
  function CreateBanner(subtitle: string, author: string, githubUrl: string): (r: Figure)
    ensures r.title.content == Title && r.bookSubtitle.content == BookSubtitle
    ensures r.topic.content == TopicLine(subtitle)
    ensures r.meta.content == MetaText(author, githubUrl)
  {
    var textX := 0.4;
    Figure(
      10.0, 2.0, White,
      TextItem(textX, 1.55, Title, 32, Forest, true, false, AlignLeft),
      TextItem(textX, 1.15, BookSubtitle, 18, Gray, false, true, AlignLeft),
      Rule(textX, 9.5, 0.9, Seafoam, 1),
      TextItem(textX, 0.6, TopicLine(subtitle), 16, Green, false, false, AlignLeft),
      TextItem(9.8, 0.2, MetaText(author, githubUrl), 11, Gray, false, false, AlignRight))
  }

  /** The figure with its two content-dependent strings blanked out. */
  function Blank(f: Figure): Figure
  {
    f.(topic := f.topic.(content := ""), meta := f.meta.(content := ""))
  }

  /**
   * Fixed layout: positions, sizes, colours and the static texts do not
   * depend on the subtitle, author or URL.
   */
  lemma LayoutIsFixed(s1: string, a1: string, u1: string, s2: string, a2: string, u2: string)
    ensures Blank(CreateBanner(s1, a1, u1)) == Blank(CreateBanner(s2, a2, u2))
  {
  }

  /** The attribute pieces of a fragment `a + src + (b + alt + c)` all occur in it. */
  lemma FragmentHasParts(a: string, src: string, b: string, alt: string, c: string, needle: string)
    requires Contains(src, needle)
    ensures Contains(a + src + (b + alt + c), needle)
    ensures Contains(a + src + (b + alt + c), src)
    ensures Contains(a + src + (b + alt + c), alt)
  {
    ContainsPrepend(a, src, needle);
    ContainsSelf(src);
    ContainsPrepend(a, src, src);
    ContainsSelf(alt);
    ContainsAppend(alt, c, alt);
    ContainsPrepend(b, alt + c, alt);
    assert b + (alt + c) == b + alt + c;
    ContainsAppend(a + src, b + alt + c, needle);
    ContainsAppend(a + src, b + alt + c, src);
    ContainsPrepend(a + src, b + alt + c, alt);
  }

  /** The markdown cell content around an encoded image `payload`. */
  function MarkdownHeader(subtitle: string, payload: string): (md: string)
    ensures |md| >= |HeaderOpen| + |HeaderClose|
    ensures md[..|HeaderOpen|] == HeaderOpen
    ensures md[|md| - |HeaderClose|..] == HeaderClose
    ensures Contains(md, "src=\"" + Marker + "," + payload)
    ensures Contains(md, "alt=\"" + Title + ": " + subtitle + "\"")
    ensures Contains(md, Marker)
  {
    var beforeSrc := HeaderOpen + "\n<img ";
    var src := "src=\"" + Marker + "," + payload;
    var beforeAlt := "\"\n     ";
    var alt := "alt=\"" + Title + ": " + subtitle + "\"";
    var afterAlt := "\n     style=\"width: 100%; max-width: 900px; border-radius: 2px;\">\n" + HeaderClose;
    ContainsInfix("src=\"", Marker, "," + payload);
    assert src == "src=\"" + Marker + ("," + payload);
    FragmentHasParts(beforeSrc, src, beforeAlt, alt, afterAlt, Marker);
    beforeSrc + src + (beforeAlt + alt + afterAlt)
  }

  /** `generate_markdown_header`: render the default banner and wrap it. */
  function GenerateMarkdownHeader(subtitle: string, encode: Figure -> string): (md: string)
    ensures Contains(md, Marker)
    ensures Contains(md, "alt=\"" + Title + ": " + subtitle + "\"")
  {
    MarkdownHeader(subtitle, encode(CreateBanner(subtitle, DefaultAuthor, DefaultUrl)))
  }

  const BannerSuffix := "_banner.png"
  const OutputDir := "banner_output_final"
  const SampleTopics: seq<string> := ["Polynomial Regression", "Gradient Descent", "Bayesian Inference"]

  /** The sample-file name: lower-cased topic, spaces turned into "_", then "_banner.png". */
  function SampleFileName(topic: string): (r: string)
    ensures |r| == |topic| + |BannerSuffix|
    ensures r[|topic|..] == BannerSuffix
    ensures forall i :: 0 <= i < |topic| ==>
      r[i] == (if topic[i] == ' ' then '_' else LowerChar(topic[i]))
    ensures ' ' !in r
  {
    var lowered := LowerAscii(topic);
    ReplaceCharAt(lowered, ' ', '_');
    ReplaceAll(lowered, " ", "_") + BannerSuffix
  }

  /** The three sample topics give three different file names, so no sample banner overwrites another. */
  lemma SampleFileNamesDistinct()
    ensures forall i, j :: 0 <= i < j < |SampleTopics| ==>
      SampleFileName(SampleTopics[i]) != SampleFileName(SampleTopics[j])
  {
    assert |SampleTopics[0]| == 21 && |SampleTopics[1]| == 16 && |SampleTopics[2]| == 18;
  }

  /** The sample files written by the script entry point, in topic order. */
  method SamplePaths(topics: seq<string>) returns (paths: seq<string>)
    ensures |paths| == |topics|
    ensures forall i :: 0 <= i < |topics| ==> paths[i] == OutputDir + "/" + SampleFileName(topics[i])
  {
    paths := [];
    var k := 0;
    while k < |topics|
      invariant 0 <= k <= |topics|
      invariant |paths| == k
      invariant forall i :: 0 <= i < k ==> paths[i] == OutputDir + "/" + SampleFileName(topics[i])
    {
      var filename := SampleFileName(topics[k]);
      paths := paths + [OutputDir + "/" + filename];
      k := k + 1;
    }
  }
}
