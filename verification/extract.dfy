/**
 * `CreateEmbed`: from a target url to `{url, date, title?, description?,
 * imageUrl?}`. The parsed page is abstracted to the parts the extractor
 * queries, each in document (tree) order; markup retrieval is abstracted to
 * the outcomes of the tab and proxy requests.
 */
module Extract {
  import opened Wrappers
  import opened Text
  import Url

  /** A `<meta>` element: its `property`, `name` and `content` attributes. */
  datatype Meta = Meta(property: Option<string>, name: Option<string>, content: Option<string>)

  /**
   * An element matched by the image selector list: its `src` attribute and
   * `parseInt(attr || '0')` of its `width` and `height` (None for NaN, so a
   * missing attribute reads as Some(0)).
   */
  datatype Image = Image(src: Option<string>, width: Option<int>, height: Option<int>)

  /**
   * The parsed page: the `<meta>` elements; the text of the first `<title>`,
   * if any; the texts of the `<h1>` elements; the texts of the `<p>` elements;
   * the elements the image selector list matches. `querySelectorAll` returns
   * each match once in tree order (section 4.2.6 of the WHATWG DOM Standard),
   * and the selector lists end in the bare `p` and `img`, so the paragraph and
   * image sequences hold every `<p>` and every `<img>` (and any `<cover>` inside
   * a `<picture>` inside `<main>`) in document order.
   */
  datatype Document = Document(metas: seq<Meta>, title: Option<string>, headings: seq<string>,
                               paragraphs: seq<string>, images: seq<Image>)

  /** A `meta[property="…"]` or `meta[name="…"]` selector. */
  datatype MetaKey = Property(key: string) | Name(key: string)

  predicate MetaMatches(m: Meta, k: MetaKey) {
    match k
    case Property(v) => m.property == Some(v)
    case Name(v) => m.name == Some(v)
  }

  /** `i` is the first meta that the selector matches. */
  ghost predicate FirstMatchAt(metas: seq<Meta>, k: MetaKey, i: int) {
    0 <= i < |metas| && MetaMatches(metas[i], k) && forall j | 0 <= j < i :: !MetaMatches(metas[j], k)
  }

  /**
   * `doc.querySelector('meta[…]')?.getAttribute('content')`: the content of
   * the first matching meta, later matches ignored; None when nothing matches
   * or the first match has no content.
   */
  function MetaContent(metas: seq<Meta>, k: MetaKey): (r: Option<string>)
    ensures (forall i | 0 <= i < |metas| :: !MetaMatches(metas[i], k)) ==> r.None?
    ensures forall i | FirstMatchAt(metas, k, i) :: r == metas[i].content
    decreases |metas|
  {
    if |metas| == 0 then None
    else if MetaMatches(metas[0], k) then metas[0].content
    else
      var r := MetaContent(metas[1..], k);
      assert forall i | FirstMatchAt(metas, k, i) :: FirstMatchAt(metas[1..], k, i - 1);
      r
  }

  // ---------------------------------------------------------------------
  // Fallback chains.

  /** One step of a fallback chain: taken when `guard` is truthy, yielding `value`. */
  datatype Candidate = Candidate(guard: Option<string>, value: string)

  /** A candidate that returns the value it tests, as `if (x) return x`. */
  function Plain(o: Option<string>): Candidate {
    Candidate(o, o.GetOr(""))
  }

  predicate Applies(c: Candidate) {
    Truthy(c.guard)
  }

  /** `i` is the first candidate that applies. */
  ghost predicate FirstAppliesAt(cs: seq<Candidate>, i: int) {
    0 <= i < |cs| && Applies(cs[i]) && forall j | 0 <= j < i :: !Applies(cs[j])
  }

  /**
   * A fallback chain: the value of the first candidate that applies, later
   * candidates ignored; None when none applies.
   */
  function FirstApplicable(cs: seq<Candidate>): (r: Option<string>)
    ensures r.None? <==> forall i | 0 <= i < |cs| :: !Applies(cs[i])
    ensures r.Some? ==> exists i :: FirstAppliesAt(cs, i) && r.value == cs[i].value
    decreases |cs|
  {
    if |cs| == 0 then None
    else if Applies(cs[0]) then
      assert FirstAppliesAt(cs, 0);
      Some(cs[0].value)
    else
      var r := FirstApplicable(cs[1..]);
      assert forall i | 0 <= i < |cs| - 1 :: cs[1..][i] == cs[i + 1];
      assert r.Some? ==> exists i :: FirstAppliesAt(cs, i) && r.value == cs[i].value by {
        if r.Some? {
          var i :| FirstAppliesAt(cs[1..], i) && r.value == cs[1..][i].value;
          assert FirstAppliesAt(cs, i + 1);
        }
      }
      r
  }

  // ---------------------------------------------------------------------
  // Title.

  /** The first `<h1>`'s text, when there is an `<h1>`. */
  function FirstHeading(doc: Document): Option<string> {
    if |doc.headings| > 0 then Some(doc.headings[0]) else None
  }

  function TitleChain(doc: Document): seq<Candidate> {
    var h1 := FirstHeading(doc);
    [ Plain(MetaContent(doc.metas, Property("og:title"))),
      Plain(MetaContent(doc.metas, Name("twitter:title"))),
      Plain(doc.title),
      Candidate(h1, Trim(h1.GetOr(""))) ]
  }

  /**
   * `extractTitle`: the first non-empty of the og:title content, the
   * twitter:title content and the `<title>` text, taken as they are; then the
   * first `<h1>` text, trimmed (its truthiness is judged before trimming, so an `<h1>` of spaces
   * gives ""); otherwise undefined.
   */
  function ExtractTitle(doc: Document): (r: Option<string>)
    ensures var og := MetaContent(doc.metas, Property("og:title"));
            var tw := MetaContent(doc.metas, Name("twitter:title"));
            && (r.None? <==> !Truthy(og) && !Truthy(tw) && !Truthy(doc.title) && !Truthy(FirstHeading(doc)))
            && (Truthy(og) ==> r == og)
            && (!Truthy(og) && Truthy(tw) ==> r == tw)
            && (!Truthy(og) && !Truthy(tw) && Truthy(doc.title) ==> r == doc.title)
            && (!Truthy(og) && !Truthy(tw) && !Truthy(doc.title) && Truthy(FirstHeading(doc)) ==>
                  r == Some(Trim(doc.headings[0])))
  {
    var cs := TitleChain(doc);
    var r := FirstApplicable(cs);
    ChainPick(cs, r);
    r
  }

  /** What a chain of four returns, case by case; derived from the first-applicable characterisation. */
  lemma ChainPick(cs: seq<Candidate>, r: Option<string>)
    requires |cs| == 4 && r == FirstApplicable(cs)
    ensures Applies(cs[0]) ==> r == Some(cs[0].value)
    ensures !Applies(cs[0]) && Applies(cs[1]) ==> r == Some(cs[1].value)
    ensures !Applies(cs[0]) && !Applies(cs[1]) && Applies(cs[2]) ==> r == Some(cs[2].value)
    ensures !Applies(cs[0]) && !Applies(cs[1]) && !Applies(cs[2]) && Applies(cs[3]) ==> r == Some(cs[3].value)
  {
    if r.Some? {
      var i :| FirstAppliesAt(cs, i) && r.value == cs[i].value;
    }
  }

  // ---------------------------------------------------------------------
  // Description.

  /**
   * A paragraph long enough to describe the page: its trimmed text is 51 to
   * 299 UTF-16 code units long (`text.length`).
   */
  predicate Meaningful(p: string) {
    50 < Utf16Length(Trim(p)) < 300
  }

  /**
   * The trimmed text of the first paragraph in document order that is
   * meaningful; None when no paragraph is.
   */
  function FirstParagraph(ps: seq<string>): (r: Option<string>)
    ensures r.None? <==> forall i | 0 <= i < |ps| :: !Meaningful(ps[i])
    ensures r.Some? ==> exists i :: FirstMeaningfulAt(ps, i) && r.value == Trim(ps[i])
    ensures r.Some? ==> 50 < Utf16Length(r.value) < 300 && 25 < |r.value| < 300
    decreases |ps|
  {
    if |ps| == 0 then None
    else if Meaningful(ps[0]) then
      assert FirstMeaningfulAt(ps, 0);
      Some(Trim(ps[0]))
    else
      var r := FirstParagraph(ps[1..]);
      MeaningfulShift(ps);
      assert r.Some? ==> exists i :: FirstMeaningfulAt(ps, i) && r.value == Trim(ps[i]) by {
        if r.Some? {
          var i :| FirstMeaningfulAt(ps[1..], i) && r.value == Trim(ps[1..][i]);
          MeaningfulStep(ps, i);
        }
      }
      r
  }

  /** `i` is the first meaningful paragraph. */
  ghost predicate FirstMeaningfulAt(ps: seq<string>, i: int) {
    0 <= i < |ps| && Meaningful(ps[i]) && forall j | 0 <= j < i :: !Meaningful(ps[j])
  }

  /** Past a paragraph that is not meaningful, the first meaningful one is one further on. */
  lemma MeaningfulShift(ps: seq<string>)
    requires |ps| > 0 && !Meaningful(ps[0])
    ensures (forall i | 0 <= i < |ps| :: !Meaningful(ps[i])) <==> forall i | 0 <= i < |ps| - 1 :: !Meaningful(ps[1..][i])
  {
    if forall i | 0 <= i < |ps| - 1 :: !Meaningful(ps[1..][i]) {
      forall i | 0 <= i < |ps|
        ensures !Meaningful(ps[i])
      {
        if i > 0 {
          assert ps[i] == ps[1..][i - 1];
        }
      }
    }
    if forall i | 0 <= i < |ps| :: !Meaningful(ps[i]) {
      forall i | 0 <= i < |ps| - 1
        ensures !Meaningful(ps[1..][i])
      {
        assert ps[1..][i] == ps[i + 1];
      }
    }
  }

  lemma MeaningfulStep(ps: seq<string>, i: int)
    requires |ps| > 0 && !Meaningful(ps[0])
    requires FirstMeaningfulAt(ps[1..], i)
    ensures FirstMeaningfulAt(ps, i + 1) && ps[1..][i] == ps[i + 1]
  {
    forall j | 0 <= j < i + 1
      ensures !Meaningful(ps[j])
    {
      if j > 0 {
        assert ps[j] == ps[1..][j - 1];
      }
    }
  }

  function DescriptionChain(doc: Document): seq<Candidate> {
    var p := FirstParagraph(doc.paragraphs);
    [ Plain(MetaContent(doc.metas, Property("og:description"))),
      Plain(MetaContent(doc.metas, Name("twitter:description"))),
      Plain(MetaContent(doc.metas, Name("description"))),
      Plain(p) ]
  }

  /**
   * `extractDescription`: the first non-empty of the og:description,
   * twitter:description and description contents; then the first meaningful
   * paragraph, trimmed; otherwise undefined.
   */
  function ExtractDescription(doc: Document): (r: Option<string>)
    ensures var og := MetaContent(doc.metas, Property("og:description"));
            var tw := MetaContent(doc.metas, Name("twitter:description"));
            var md := MetaContent(doc.metas, Name("description"));
            && (r.None? <==> !Truthy(og) && !Truthy(tw) && !Truthy(md)
                             && forall i | 0 <= i < |doc.paragraphs| :: !Meaningful(doc.paragraphs[i]))
            && (Truthy(og) ==> r == og)
            && (!Truthy(og) && Truthy(tw) ==> r == tw)
            && (!Truthy(og) && !Truthy(tw) && Truthy(md) ==> r == md)
            && (!Truthy(og) && !Truthy(tw) && !Truthy(md) ==> r == FirstParagraph(doc.paragraphs))
  {
    var cs := DescriptionChain(doc);
    var r := FirstApplicable(cs);
    ChainPick(cs, r);
    var p := FirstParagraph(doc.paragraphs);
    assert p.Some? ==> Truthy(p) by {
      if p.Some? {
        assert |p.value| > 25;
      }
    }
    r
  }

  // ---------------------------------------------------------------------
  // Image.

  /** `!x` for a `parseInt` result: 0 and NaN are falsy. */
  predicate Falsy(n: Option<int>) {
    n.None? || n.value == 0
  }

  /** A number compared with `> 200`: NaN compares false. */
  predicate Above200(n: Option<int>) {
    n.Some? && n.value > 200
  }

  /**
   * The image filter: a non-empty `src` containing neither "icon" nor "logo",
   * and either both dimensions above 200 or neither given a non-zero number.
   */
  predicate Qualifies(img: Image) {
    && img.src.Some? && img.src.value != ""
    && !Contains(img.src.value, "icon") && !Contains(img.src.value, "logo")
    && ((Above200(img.width) && Above200(img.height)) || (Falsy(img.width) && Falsy(img.height)))
  }

  /** The `src` of the first qualifying image in document order; None when no image qualifies. */
  function FirstImageSrc(imgs: seq<Image>): (r: Option<string>)
    ensures r.None? <==> forall i | 0 <= i < |imgs| :: !Qualifies(imgs[i])
    ensures r.Some? ==> exists i :: FirstQualifyingAt(imgs, i) && r == imgs[i].src
    ensures r.Some? ==> r.value != ""
    decreases |imgs|
  {
    if |imgs| == 0 then None
    else if Qualifies(imgs[0]) then
      assert FirstQualifyingAt(imgs, 0);
      imgs[0].src
    else
      var r := FirstImageSrc(imgs[1..]);
      QualifyingShift(imgs);
      assert r.Some? ==> exists i :: FirstQualifyingAt(imgs, i) && r == imgs[i].src by {
        if r.Some? {
          var i :| FirstQualifyingAt(imgs[1..], i) && r == imgs[1..][i].src;
          QualifyingStep(imgs, i);
        }
      }
      r
  }

  /** `i` is the first qualifying image. */
  ghost predicate FirstQualifyingAt(imgs: seq<Image>, i: int) {
    0 <= i < |imgs| && Qualifies(imgs[i]) && forall j | 0 <= j < i :: !Qualifies(imgs[j])
  }

  /** Past an image that does not qualify, the first qualifying one is one further on. */
  lemma QualifyingShift(imgs: seq<Image>)
    requires |imgs| > 0 && !Qualifies(imgs[0])
    ensures (forall i | 0 <= i < |imgs| :: !Qualifies(imgs[i])) <==> forall i | 0 <= i < |imgs| - 1 :: !Qualifies(imgs[1..][i])
  {
    if forall i | 0 <= i < |imgs| - 1 :: !Qualifies(imgs[1..][i]) {
      forall i | 0 <= i < |imgs|
        ensures !Qualifies(imgs[i])
      {
        if i > 0 {
          assert imgs[i] == imgs[1..][i - 1];
        }
      }
    }
    if forall i | 0 <= i < |imgs| :: !Qualifies(imgs[i]) {
      forall i | 0 <= i < |imgs| - 1
        ensures !Qualifies(imgs[1..][i])
      {
        assert imgs[1..][i] == imgs[i + 1];
      }
    }
  }

  lemma QualifyingStep(imgs: seq<Image>, i: int)
    requires |imgs| > 0 && !Qualifies(imgs[0])
    requires FirstQualifyingAt(imgs[1..], i)
    ensures FirstQualifyingAt(imgs, i + 1) && imgs[1..][i] == imgs[i + 1]
  {
    forall j | 0 <= j < i + 1
      ensures !Qualifies(imgs[j])
    {
      if j > 0 {
        assert imgs[j] == imgs[1..][j - 1];
      }
    }
  }

  /**
   * The `src` cleaning: trim, then remove at most one leading '\', at most
   * one leading '"', at most one trailing '"' and at most one trailing '\', in
   * that order. The result is an infix of the trimmed `src`, at most four
   * characters shorter.
   */
  function CleanSrc(src: string): (r: string)
    ensures exists i :: OccursAt(Trim(src), r, i)
    ensures |Trim(src)| - 4 <= |r| <= |Trim(src)|
  {
    Unwrap(Trim(src))
  }

  /** The four quote and backslash removals of the cleaning, on an already trimmed `src`. */
  function Unwrap(t: string): (r: string)
    ensures exists i :: OccursAt(t, r, i)
    ensures |t| - 4 <= |r| <= |t|
  {
    var b := UnwrapFront(t);
    var d := UnwrapBack(b);
    OccursTrans(t, b, d, |t| - |b|, 0);
    d
  }

  /** The leading '\' and then the leading '"' removed: a suffix of `t`. */
  function UnwrapFront(t: string): (r: string)
    ensures OccursAt(t, r, |t| - |r|)
    ensures |t| - 2 <= |r| <= |t|
  {
    var a := DropPrefix(t, "\\");
    var b := DropPrefix(a, "\"");
    DropPrefixOccurs(t, "\\");
    DropPrefixOccurs(a, "\"");
    OccursTrans(t, a, b, |t| - |a|, |a| - |b|);
    b
  }

  /** The trailing '"' and then the trailing '\' removed: a prefix of `t`. */
  function UnwrapBack(t: string): (r: string)
    ensures OccursAt(t, r, 0)
    ensures |t| - 2 <= |r| <= |t|
  {
    var c := DropSuffix(t, "\"");
    var d := DropSuffix(c, "\\");
    DropSuffixOccurs(t, "\"");
    DropSuffixOccurs(c, "\\");
    OccursTrans(t, c, d, 0, 0);
    d
  }

  /** An occurrence inside an occurrence is an occurrence. */
  lemma OccursTrans(s: string, t: string, u: string, i: int, j: int)
    requires OccursAt(s, t, i) && OccursAt(t, u, j)
    ensures OccursAt(s, u, i + j)
  {
    forall k | 0 <= k < |u|
      ensures s[i + j..i + j + |u|][k] == u[k]
    {
      assert u[k] == t[j + k] == s[i + j + k];
    }
  }

  lemma DropPrefixOccurs(s: string, p: string)
    ensures OccursAt(s, DropPrefix(s, p), |s| - |DropPrefix(s, p)|)
    ensures |s| - |p| <= |DropPrefix(s, p)| <= |s|
  {
    if StartsWith(s, p) {
      assert (p + DropPrefix(s, p))[|p|..] == DropPrefix(s, p);
    } else {
      assert s[0..|s|] == s;
    }
  }

  lemma DropSuffixOccurs(s: string, p: string)
    ensures OccursAt(s, DropSuffix(s, p), 0)
    ensures |s| - |p| <= |DropSuffix(s, p)| <= |s|
  {
    if EndsWith(s, p) {
      assert (DropSuffix(s, p) + p)[..|DropSuffix(s, p)|] == DropSuffix(s, p);
    } else {
      assert s[0..|s|] == s;
    }
  }

  /** A src with no surrounding spaces, quotes or backslashes is left as it is. */
  lemma CleanSrcPlain(p: string)
    requires p != [] && !IsSpace(p[0]) && !IsSpace(p[|p| - 1])
    requires p[0] != '\\' && p[0] != '"' && p[|p| - 1] != '"' && p[|p| - 1] != '\\'
    ensures CleanSrc(p) == p
  {
    assert p[0..|p|] == p;
    TrimUnique(p, p, 0);
    assert !StartsWith(p, "\\") by { assert p[..1] != "\\"; }
    assert !StartsWith(p, "\"") by { assert p[..1] != "\""; }
    assert !EndsWith(p, "\"") by { assert p[|p| - 1..] != "\""; }
    assert !EndsWith(p, "\\") by { assert p[|p| - 1..] != "\\"; }
  }

  /**
   * A src wrapped as `\"…\"`, the way an attribute value reads when the
   * markup arrives with its quotes escaped, is unwrapped to what is inside.
   */
  lemma CleanSrcUnwraps(p: string)
    ensures CleanSrc("\\\"" + p + "\\\"") == p
  {
    var s := "\\\"" + p + "\\\"";
    assert s[0] == '\\' && s[|s| - 1] == '"';
    assert s[0..|s|] == s;
    TrimUnique(s, s, 0);
    UnwrapSteps(s, p);
  }

  lemma UnwrapSteps(s: string, p: string)
    requires s == "\\\"" + p + "\\\""
    ensures Unwrap(s) == p
  {
    assert StartsWith(s, "\\") by { assert s[..1] == "\\"; }
    var a := s[1..];
    assert a == "\"" + p + "\\\"";
    assert StartsWith(a, "\"") by { assert a[..1] == "\""; }
    var b := a[1..];
    assert b == p + "\\\"";
    assert EndsWith(b, "\"") by { assert b[|b| - 1..] == "\""; }
    var c := b[..|b| - 1];
    assert c == p + "\\";
    assert EndsWith(c, "\\") by { assert c[|c| - 1..] == "\\"; }
    assert UnwrapFront(s) == b;
    assert c[..|c| - 1] == p;
  }

  /**
   * A cleaned src that does not start with "http" gets the base url of the
   * target (protocol + "//" + hostname) in front; one that does is kept.
   */
  function Resolve(parse: Url.Parser, target: string, src: string): (r: string)
    ensures StartsWith(src, "http") ==> r == src
    ensures !StartsWith(src, "http") ==> r == Url.GetBaseUrl(parse, target) + src
    ensures EndsWith(r, src)
  {
    if StartsWith(src, "http") then src
    else
      var r := Url.GetBaseUrl(parse, target) + src;
      assert r[|r| - |src|..] == src;
      r
  }

  function ImageChain(parse: Url.Parser, target: string, doc: Document): seq<Candidate> {
    var src := FirstImageSrc(doc.images);
    [ Plain(MetaContent(doc.metas, Property("og:image"))),
      Plain(MetaContent(doc.metas, Name("twitter:image"))),
      Candidate(src, Resolve(parse, target, CleanSrc(src.GetOr("")))),
      Candidate(None, "") ]
  }

  /**
   * `extractImage`: the og:image or else the twitter:image content, verbatim;
   * otherwise the first qualifying image's src, cleaned and made absolute;
   * otherwise undefined.
   */
  function ExtractImage(parse: Url.Parser, target: string, doc: Document): (r: Option<string>)
    ensures var og := MetaContent(doc.metas, Property("og:image"));
            var tw := MetaContent(doc.metas, Name("twitter:image"));
            var src := FirstImageSrc(doc.images);
            && (r.None? <==> !Truthy(og) && !Truthy(tw) && forall i | 0 <= i < |doc.images| :: !Qualifies(doc.images[i]))
            && (Truthy(og) ==> r == og)
            && (!Truthy(og) && Truthy(tw) ==> r == tw)
            && (!Truthy(og) && !Truthy(tw) && src.Some? ==>
                  r == Some(Resolve(parse, target, CleanSrc(src.value))))
  {
    var cs := ImageChain(parse, target, doc);
    var r := FirstApplicable(cs);
    ChainPick(cs, r);
    r
  }

  /** The three extracted fields. */
  datatype Fields = Fields(title: Option<string>, description: Option<string>, imageUrl: Option<string>)

  /** `extractData`. */
  function ExtractData(parse: Url.Parser, target: string, doc: Document): (r: Fields)
    ensures r.title == ExtractTitle(doc) && r.description == ExtractDescription(doc)
            && r.imageUrl == ExtractImage(parse, target, doc)
  {
    Fields(ExtractTitle(doc), ExtractDescription(doc), ExtractImage(parse, target, doc))
  }

  /**
   * A page whose only signal is `<meta property="og:title" content="X">`
   * gives title X and neither description nor image.
   */
  lemma OnlyOgTitle(parse: Url.Parser, target: string, x: string)
    requires x != ""
    ensures var doc := Document([Meta(Some("og:title"), None, Some(x))], None, [], [], []);
            ExtractData(parse, target, doc) == Fields(Some(x), None, None)
  {
    var doc := Document([Meta(Some("og:title"), None, Some(x))], None, [], [], []);
    assert FirstMatchAt(doc.metas, Property("og:title"), 0);
    assert MetaContent(doc.metas, Property("og:description")).None?;
    assert MetaContent(doc.metas, Name("twitter:description")).None?;
    assert MetaContent(doc.metas, Name("description")).None?;
    assert MetaContent(doc.metas, Property("og:image")).None?;
    assert MetaContent(doc.metas, Name("twitter:image")).None?;
  }

  /**
   * A page with no image metadata whose first image has a relative src `p`
   * (no surrounding spaces, quotes or backslashes, no "icon" or "logo") and
   * zero dimensions gives `p` behind the target's protocol and host name:
   * "/img.png" on a page of https://site.com gives "https://site.com/img.png".
   */
  lemma RelativeImageResolved(parse: Url.Parser, target: string, doc: Document, p: string)
    requires parse(target).Some?
    requires forall i | 0 <= i < |doc.metas| :: doc.metas[i].property != Some("og:image") && doc.metas[i].name != Some("twitter:image")
    requires |doc.images| > 0 && doc.images[0] == Image(Some(p), Some(0), Some(0))
    requires p != [] && !IsSpace(p[0]) && !IsSpace(p[|p| - 1])
    requires p[0] != '\\' && p[0] != '"' && p[|p| - 1] != '"' && p[|p| - 1] != '\\'
    requires !Contains(p, "icon") && !Contains(p, "logo") && !StartsWith(p, "http")
    ensures ExtractImage(parse, target, doc) == Some(parse(target).value.protocol + "//" + parse(target).value.hostname + p)
  {
    FirstImageHead(doc.images);
    NoImageMeta(doc.metas);
    ImageFromMarkup(parse, target, doc);
    CleanSrcPlain(p);
  }

  lemma NoImageMeta(metas: seq<Meta>)
    requires forall i | 0 <= i < |metas| :: metas[i].property != Some("og:image") && metas[i].name != Some("twitter:image")
    ensures MetaContent(metas, Property("og:image")).None?
    ensures MetaContent(metas, Name("twitter:image")).None?
  {
  }

  lemma ImageFromMarkup(parse: Url.Parser, target: string, doc: Document)
    requires MetaContent(doc.metas, Property("og:image")).None?
    requires MetaContent(doc.metas, Name("twitter:image")).None?
    requires FirstImageSrc(doc.images).Some?
    ensures ExtractImage(parse, target, doc) == Some(Resolve(parse, target, CleanSrc(FirstImageSrc(doc.images).value)))
  {
  }

  lemma FirstImageHead(imgs: seq<Image>)
    requires |imgs| > 0 && Qualifies(imgs[0])
    ensures FirstImageSrc(imgs) == imgs[0].src
  {
  }

  // ---------------------------------------------------------------------
  // Markup retrieval.

  /** An open tab as the host reports it. */
  datatype Tab = Tab(id: Option<int>, url: Option<string>)

  /**
   * The `find` predicate: a tab url that is the target, exactly or once both
   * have had their scheme, "www." and trailing '/' removed. This
   * `normalizeUrl` of `CreateEmbed` does not trim, unlike the utilities' one.
   */
  predicate TabMatches(t: Tab, target: string) {
    Truthy(t.url) && (t.url.value == target || Url.StripDecorations(t.url.value) == Url.StripDecorations(target))
  }

  /** `tabs.find(…)`: the first matching tab. */
  function FindTab(tabs: seq<Tab>, target: string): (r: Option<Tab>)
    ensures r.None? <==> forall i | 0 <= i < |tabs| :: !TabMatches(tabs[i], target)
    ensures r.Some? ==> exists i :: FirstTabAt(tabs, target, i) && r.value == tabs[i]
    decreases |tabs|
  {
    if |tabs| == 0 then None
    else if TabMatches(tabs[0], target) then
      assert FirstTabAt(tabs, target, 0);
      Some(tabs[0])
    else
      var r := FindTab(tabs[1..], target);
      TabShift(tabs, target);
      assert r.Some? ==> exists i :: FirstTabAt(tabs, target, i) && r.value == tabs[i] by {
        if r.Some? {
          var i :| FirstTabAt(tabs[1..], target, i) && r.value == tabs[1..][i];
          TabStep(tabs, target, i);
        }
      }
      r
  }

  /** `i` is the first matching tab. */
  ghost predicate FirstTabAt(tabs: seq<Tab>, target: string, i: int) {
    0 <= i < |tabs| && TabMatches(tabs[i], target) && forall j | 0 <= j < i :: !TabMatches(tabs[j], target)
  }

  /** Past a tab that does not match, the first matching one is one further on. */
  lemma TabShift(tabs: seq<Tab>, target: string)
    requires |tabs| > 0 && !TabMatches(tabs[0], target)
    ensures (forall i | 0 <= i < |tabs| :: !TabMatches(tabs[i], target))
            <==> forall i | 0 <= i < |tabs| - 1 :: !TabMatches(tabs[1..][i], target)
  {
    if forall i | 0 <= i < |tabs| - 1 :: !TabMatches(tabs[1..][i], target) {
      forall i | 0 <= i < |tabs|
        ensures !TabMatches(tabs[i], target)
      {
        if i > 0 {
          assert tabs[i] == tabs[1..][i - 1];
        }
      }
    }
    if forall i | 0 <= i < |tabs| :: !TabMatches(tabs[i], target) {
      forall i | 0 <= i < |tabs| - 1
        ensures !TabMatches(tabs[1..][i], target)
      {
        assert tabs[1..][i] == tabs[i + 1];
      }
    }
  }

  lemma TabStep(tabs: seq<Tab>, target: string, i: int)
    requires |tabs| > 0 && !TabMatches(tabs[0], target)
    requires FirstTabAt(tabs[1..], target, i)
    ensures FirstTabAt(tabs, target, i + 1) && tabs[1..][i] == tabs[i + 1]
  {
    forall j | 0 <= j < i + 1
      ensures !TabMatches(tabs[j], target)
    {
      if j > 0 {
        assert tabs[j] == tabs[1..][j - 1];
      }
    }
  }

  /** Where the markup comes from: a tab's live document, or the proxy. */
  datatype Source = FromTab(tabId: int) | ViaProxy

  /**
   * The tab used is the first matching tab, when it has a (truthy) id; a
   * first match without an id sends the request to the proxy, without
   * looking at later matches.
   */
  function ChooseSource(tabs: seq<Tab>, target: string): (r: Source)
    ensures r.FromTab? ==> exists i | 0 <= i < |tabs| :: TabMatches(tabs[i], target) && tabs[i].id == Some(r.tabId)
                             && r.tabId != 0 && forall j | 0 <= j < i :: !TabMatches(tabs[j], target)
    ensures (forall i | 0 <= i < |tabs| :: !TabMatches(tabs[i], target)) ==> r == ViaProxy
    ensures forall i | FirstTabAt(tabs, target, i) ::
              r == (if tabs[i].id.Some? && tabs[i].id.value != 0 then FromTab(tabs[i].id.value) else ViaProxy)
  {
    match FindTab(tabs, target)
    case Some(t) => if t.id.Some? && t.id.value != 0 then FromTab(t.id.value) else ViaProxy
    case None => ViaProxy
  }

  /** The markup obtained, if any, and how many proxy requests were made for it. */
  datatype Fetched = Fetched(markup: Option<string>, proxyRequests: nat)

  /**
   * `getHtml`. Outside the extension the proxy is asked once. Inside it, a
   * failed tab query or a tab that yields no markup falls back to the proxy;
   * with no usable matching tab the proxy is asked, and asked a second time
   * when that first request fails, because the fallback call sits inside the
   * same `try` whose `catch` calls the proxy again. `proxy(n)` is the
   * outcome of the n-th proxy request (None for a network error or a non-2xx
   * status); `tabMarkup(id)` is what `executeScript` returns for a tab.
   */
  function GetHtml(isExtension: bool, tabs: Option<seq<Tab>>, target: string,
                   tabMarkup: int -> Option<string>, proxy: nat -> Option<string>): (r: Fetched)
    ensures r.proxyRequests <= 2
    ensures !isExtension ==> r == Fetched(proxy(0), 1)
    ensures r.proxyRequests == 0 ==> isExtension && r.markup.Some? && r.markup.value != ""
    ensures r.proxyRequests == 2 ==> r.markup == proxy(1) && proxy(0).None?
    ensures r.markup.None? ==> r.proxyRequests >= 1
    ensures r.proxyRequests == 1 ==> r.markup == proxy(0)
    ensures r.proxyRequests == 0 <==> isExtension && tabs.Some? && ChooseSource(tabs.value, target).FromTab?
                                      && Truthy(tabMarkup(ChooseSource(tabs.value, target).tabId))
    ensures r.proxyRequests == 2 <==> isExtension && tabs.Some? && ChooseSource(tabs.value, target) == ViaProxy && proxy(0).None?
    ensures isExtension && tabs.Some? && ChooseSource(tabs.value, target).FromTab?
            && Truthy(tabMarkup(ChooseSource(tabs.value, target).tabId))
            ==> r == Fetched(tabMarkup(ChooseSource(tabs.value, target).tabId), 0)
  {
    if !isExtension then Fetched(proxy(0), 1)
    else
      match tabs
      case None => Fetched(proxy(0), 1)
      case Some(ts) =>
        match ChooseSource(ts, target)
        case FromTab(id) =>
          var h := tabMarkup(id);
          if Truthy(h) then Fetched(h, 0) else Fetched(proxy(0), 1)
        case ViaProxy =>
          if proxy(0).Some? then Fetched(proxy(0), 1) else Fetched(proxy(1), 2)
  }

  /**
   * Where obtained markup comes from: the first proxy request, the second
   * one, or the live document of the first tab matching the target, which
   * has a truthy id and yielded non-empty markup.
   */
  lemma GetHtmlOrigin(isExtension: bool, tabs: Option<seq<Tab>>, target: string,
                      tabMarkup: int -> Option<string>, proxy: nat -> Option<string>)
    ensures var r := GetHtml(isExtension, tabs, target, tabMarkup, proxy);
            r.markup.Some? ==>
              || r.markup == proxy(0)
              || r.markup == proxy(1)
              || (tabs.Some? && exists i :: FirstTabAt(tabs.value, target, i) && tabs.value[i].id.Some?
                                            && tabs.value[i].id.value != 0 && r.markup == tabMarkup(tabs.value[i].id.value)
                                            && r.markup.value != "")
  {
  }

  /** What `handle` returns: `url` and `date`, plus the extracted fields unless retrieval failed. */
  datatype Extracted = Extracted(url: string, date: string, fields: Option<Fields>)

  /**
   * `handle`: the url is always the argument and the date the one supplied;
   * when retrieval fails the result holds only those two; otherwise the
   * fields extracted from the parsed markup. `toDocument` stands for
   * `DOMParser`, which does not fail.
   */
  function Handle(parse: Url.Parser, target: string, date: string, markup: Option<string>,
                  toDocument: string -> Document): (r: Extracted)
    ensures r.url == target && r.date == date
    ensures r.fields.None? <==> markup.None?
    ensures markup.Some? ==> r.fields == Some(ExtractData(parse, target, toDocument(markup.value)))
  {
    match markup
    case None => Extracted(target, date, None)
    case Some(html) => Extracted(target, date, Some(ExtractData(parse, target, toDocument(html))))
  }
}
