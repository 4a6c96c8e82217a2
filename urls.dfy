/**
 * The URL normaliser of generate_rss.py: guess_mime, which labels a thumbnail
 * URL with an image MIME type, and clean_thumb_url, which removes the
 * "-<width>x<height>" size token that the site appends to resized images.
 */
module Urls {

  import opened Optional
  import opened Text

  /** A URL as urllib.parse.urlparse splits it into its six components. */
  datatype Url = Url(scheme: string, netloc: string, path: string, params: string, query: string, fragment: string)

  /** What urlparse returns for the empty string. */
  const EmptyUrl := Url("", "", "", "", "", "")

  const Jpeg := "image/jpeg"
  const Png := "image/png"
  const Gif := "image/gif"
  const Webp := "image/webp"

  /**
   * The classification guess_mime applies to the lower-cased path: by its ending,
   * and image/jpeg for every path with none of the known endings.
   */
  function MimeOfPath(path: string): (mime: string)
    ensures mime == Png <==> EndsWith(path, ".png")
    ensures mime == Gif <==> EndsWith(path, ".gif")
    ensures mime == Webp <==> EndsWith(path, ".webp")
    ensures mime == Jpeg <==> !EndsWith(path, ".png") && !EndsWith(path, ".gif") && !EndsWith(path, ".webp")
  {
    KnownEndingsExclusive(path);
    if EndsWith(path, ".jpg") || EndsWith(path, ".jpeg") then Jpeg
    else if EndsWith(path, ".png") then Png
    else if EndsWith(path, ".gif") then Gif
    else if EndsWith(path, ".webp") then Webp
    else Jpeg
  }

  /** guess_mime: the path is lower-cased, then classified by its ending. */
  function GuessMime(u: Url): (mime: string)
    ensures mime == Png <==> EndsWith(Lower(u.path), ".png")
    ensures mime == Gif <==> EndsWith(Lower(u.path), ".gif")
    ensures mime == Webp <==> EndsWith(Lower(u.path), ".webp")
    ensures mime == Jpeg <==>
      !EndsWith(Lower(u.path), ".png") && !EndsWith(Lower(u.path), ".gif") && !EndsWith(Lower(u.path), ".webp")
  {
    MimeOfPath(Lower(u.path))
  }

  lemma EndingChars(p: string, suffix: string)
    requires |suffix| >= 4 && EndsWith(p, suffix)
    ensures p[|p| - 1] == suffix[|suffix| - 1]
    ensures p[|p| - 2] == suffix[|suffix| - 2]
    ensures p[|p| - 3] == suffix[|suffix| - 3]
    ensures p[|p| - 4] == suffix[|suffix| - 4]
  {
    var t := p[|p| - |suffix|..];
    assert t[|t| - 1] == p[|p| - 1] && t[|t| - 2] == p[|p| - 2];
    assert t[|t| - 3] == p[|p| - 3] && t[|t| - 4] == p[|p| - 4];
  }

  /** No path ends with two of the known endings that carry different labels. */
  lemma KnownEndingsExclusive(p: string)
    ensures EndsWith(p, ".png") ==> !EndsWith(p, ".jpg") && !EndsWith(p, ".jpeg")
    ensures EndsWith(p, ".gif") ==> !EndsWith(p, ".jpg") && !EndsWith(p, ".jpeg") && !EndsWith(p, ".png")
    ensures EndsWith(p, ".webp") ==> !EndsWith(p, ".jpg") && !EndsWith(p, ".jpeg") && !EndsWith(p, ".png") && !EndsWith(p, ".gif")
  {
    if EndsWith(p, ".jpg") { EndingChars(p, ".jpg"); }
    if EndsWith(p, ".jpeg") { EndingChars(p, ".jpeg"); }
    if EndsWith(p, ".png") { EndingChars(p, ".png"); }
    if EndsWith(p, ".gif") { EndingChars(p, ".gif"); }
    if EndsWith(p, ".webp") { EndingChars(p, ".webp"); }
  }

  /** The MIME labels by lower-case file extension, as a table. */
  const MimeTypes: map<string, string> :=
    map["jpg" := Jpeg, "jpeg" := Jpeg, "png" := Png, "gif" := Gif, "webp" := Webp]

  /** The label of a lower-case extension: its entry in the table, image/jpeg when it has none. */
  function MimeOfExtension(ext: string): string {
    if ext in MimeTypes then MimeTypes[ext] else Jpeg
  }

  /** A path ends with "." + known exactly when its extension (the text after its last dot) is known. */
  lemma ExtensionSuffix(stem: string, ext: string, known: string)
    requires '.' !in ext && '.' !in known
    ensures EndsWith(stem + "." + ext, "." + known) <==> ext == known
  {
    var s := stem + "." + ext;
    var x := "." + known;
    if ext == known {
      assert s[|s| - |x|..] == x;
    } else if EndsWith(s, x) {
      if |known| < |ext| {
        SuffixChar(s, x, 0);
        assert false;
      } else if |known| > |ext| {
        SuffixChar(s, x, |stem| - (|s| - |x|));
        assert false;
      } else {
        SameLengthSuffix(stem, ext, known);
        assert false;
      }
    }
  }

  lemma SameLengthSuffix(stem: string, ext: string, known: string)
    requires |ext| == |known| && EndsWith(stem + "." + ext, "." + known)
    ensures ext == known
  {
    var s := stem + "." + ext;
    assert s[|s| - |ext| - 1..] == "." + ext;
    assert ext == ("." + ext)[1..];
    assert known == ("." + known)[1..];
  }

  lemma SuffixChar(s: string, x: string, k: int)
    requires EndsWith(s, x) && 0 <= k < |x|
    ensures s[|s| - |x| + k] == x[k]
  {
    assert s[|s| - |x|..][k] == s[|s| - |x| + k];
  }

  lemma LowerKeepsDotFree(s: string)
    requires '.' !in s
    ensures '.' !in Lower(s)
  {
  }

  /** A path "stem.ext" is classified by the table entry of its extension. */
  lemma MimeOfPathByExtension(stem: string, ext: string)
    requires '.' !in ext
    ensures MimeOfPath(stem + "." + ext) == MimeOfExtension(ext)
  {
    assert ".jpg" == "." + "jpg" && ".jpeg" == "." + "jpeg" && ".png" == "." + "png";
    assert ".gif" == "." + "gif" && ".webp" == "." + "webp";
    ExtensionSuffix(stem, ext, "jpg");
    ExtensionSuffix(stem, ext, "jpeg");
    ExtensionSuffix(stem, ext, "png");
    ExtensionSuffix(stem, ext, "gif");
    ExtensionSuffix(stem, ext, "webp");
  }

  /**
   * guess_mime classifies a path by its extension, case-insensitively: for a path
   * "stem.ext" the label is the table's entry for the lower-cased ext, image/jpeg
   * for any extension the table does not know.
   */
  lemma GuessMimeByExtension(u: Url, stem: string, ext: string)
    requires u.path == stem + "." + ext
    requires '.' !in ext
    ensures GuessMime(u) == MimeOfExtension(Lower(ext))
  {
    LowerConcat(stem + ".", ext);
    LowerConcat(stem, ".");
    assert Lower(u.path) == Lower(stem) + "." + Lower(ext);
    LowerKeepsDotFree(ext);
    MimeOfPathByExtension(Lower(stem), Lower(ext));
  }

  /** guess_mime does not depend on the case of the path. */
  lemma GuessMimeIgnoresCase(u: Url)
    ensures GuessMime(u.(path := Upper(u.path))) == GuessMime(u)
  {
    LowerOfUpper(u.path);
  }

  /** A path without a dot does not end with a suffix that starts with one. */
  lemma NoDottedEnding(p: string, x: string)
    requires '.' !in p && |x| > 0 && x[0] == '.'
    ensures !EndsWith(p, x)
  {
    if |x| <= |p| {
      assert p[|p| - |x|..][0] == p[|p| - |x|];
    }
  }

  /** A path without a dot has none of the known endings. */
  lemma MimeOfDotFreePath(p: string)
    requires '.' !in p
    ensures MimeOfPath(p) == Jpeg
  {
    NoDottedEnding(p, ".png");
    NoDottedEnding(p, ".gif");
    NoDottedEnding(p, ".webp");
  }

  /** A path with no dot at all (no extension) is labelled image/jpeg. */
  lemma GuessMimeWithoutExtension(u: Url)
    requires '.' !in u.path
    ensures GuessMime(u) == Jpeg
  {
    LowerKeepsDotFree(u.path);
    MimeOfDotFreePath(Lower(u.path));
  }

  /** One or more characters of \d. */
  predicate Digits(s: string) {
    |s| > 0 && forall k :: 0 <= k < |s| ==> IsDigit(s[k])
  }

  /** One or more characters of \w. */
  predicate WordChars(s: string) {
    |s| > 0 && forall k :: 0 <= k < |s| ==> IsWordChar(s[k])
  }

  /** The lookahead (?=\.\w+$) holds at position e of s. */
  predicate ExtensionAt(s: string, e: int) {
    0 <= e < |s| && s[e] == '.' && WordChars(s[e + 1..])
  }

  /** s[i..e] is "-" + digits + "x" + digits, with the "x" at j. */
  predicate SizeTokenAt(s: string, i: int, j: int, e: int) {
    && 0 <= i && i + 1 < j && j + 1 < e <= |s|
    && s[i] == '-' && s[j] == 'x'
    && Digits(s[i + 1..j]) && Digits(s[j + 1..e])
  }

  /** The pattern -(\d+)x(\d+)(?=\.\w+$) matches s[i..e]. */
  predicate MatchAt(s: string, i: int, e: int) {
    ExtensionAt(s, e) && exists j | i + 1 < j < e - 1 :: SizeTokenAt(s, i, j, e)
  }

  /** The position of the dot that starts the final ".ext" of s, if s ends with one. */
  function ExtensionStart(s: string): (r: Option<nat>)
    ensures r.Some? ==> ExtensionAt(s, r.value)
    ensures forall e :: ExtensionAt(s, e) ==> r == Some(e)
  {
    var w := TrailingRun(s, IsWordChar);
    if 0 < w < |s| && s[|s| - w - 1] == '.' then Some(|s| - w - 1) else None
  }

  /**
   * One backward step of the scan: the position of the c just before the trailing
   * run of digits of t, when that run is non-empty and such a c is there.
   */
  function DigitsThen(t: string, c: char): (r: Option<nat>)
    ensures r.Some? ==> r.value < |t| && t[r.value] == c && Digits(t[r.value + 1..])
  {
    var d := TrailingRun(t, IsDigit);
    if d == 0 || d == |t| || t[|t| - d - 1] != c then None
    else
      var run := t[|t| - d..];
      assert Digits(run) by {
        forall k | 0 <= k < |run|
          ensures IsDigit(run[k])
        {
          assert run[k] == t[|t| - d + k];
        }
      }
      Some(|t| - d - 1)
  }

  /** A c followed by nothing but one or more digits is found by the step. */
  lemma DigitsThenFinds(t: string, m: int, c: char)
    requires 0 <= m < |t| && t[m] == c && !IsDigit(c) && Digits(t[m + 1..])
    ensures DigitsThen(t, c) == Some(m)
  {
    forall k | m + 1 <= k < |t|
      ensures IsDigit(t[k])
    {
      assert t[m + 1..][k - m - 1] == t[k];
    }
  }

  /**
   * The scan that finds the match of -(\d+)x(\d+)(?=\.\w+$): locate the final
   * ".ext", then walk back over the height digits to the "x" and over the width
   * digits to the "-". The result is the one and only match, as (start, end).
   */
  function FindSizeToken(s: string): (r: Option<(nat, nat)>)
    ensures r.Some? ==> MatchAt(s, r.value.0, r.value.1)
  {
    match ExtensionStart(s)
    case None => None
    case Some(e) =>
      match DigitsThen(s[..e], 'x')
      case None => None
      case Some(j) =>
        match DigitsThen(s[..j], '-')
        case None => None
        case Some(i) =>
          assert s[..e][j + 1..] == s[j + 1..e];
          assert s[..j][i + 1..] == s[i + 1..j];
          assert SizeTokenAt(s, i, j, e);
          Some((i, e))
  }

  /** Every match of the pattern is the one the scan finds. */
  lemma FindSizeTokenComplete(s: string, i: int, e: int)
    requires MatchAt(s, i, e)
    ensures FindSizeToken(s) == Some((i, e))
  {
    var j :| i + 1 < j < e - 1 && SizeTokenAt(s, i, j, e);
    assert ExtensionStart(s) == Some(e);
    assert s[..e][j + 1..] == s[j + 1..e];
    DigitsThenFinds(s[..e], j, 'x');
    assert s[..j][i + 1..] == s[i + 1..j];
    DigitsThenFinds(s[..j], i, '-');
  }

  /** The scan finds every match there is. */
  lemma AllMatchesFound(s: string)
    ensures forall i, e :: MatchAt(s, i, e) ==> FindSizeToken(s) == Some((i, e))
  {
    forall i, e | MatchAt(s, i, e)
      ensures FindSizeToken(s) == Some((i, e))
    {
      FindSizeTokenComplete(s, i, e);
    }
  }

  /**
   * The pattern matches a path at most once, because the lookahead pins the end
   * of every match to the final dot; so re.sub, which replaces every match,
   * removes exactly one token or none.
   */
  lemma AtMostOneMatch(s: string, i1: int, e1: int, i2: int, e2: int)
    requires MatchAt(s, i1, e1) && MatchAt(s, i2, e2)
    ensures i1 == i2 && e1 == e2
  {
    FindSizeTokenComplete(s, i1, e1);
    FindSizeTokenComplete(s, i2, e2);
  }

  /** re.sub(r"-(\d+)x(\d+)(?=\.\w+$)", "", path) */
  function CleanPath(path: string): (r: string)
    ensures forall i, e :: MatchAt(path, i, e) ==> r == path[..i] + path[e..]
    ensures (forall i, e :: !MatchAt(path, i, e)) ==> r == path
  {
    AllMatchesFound(path);
    match FindSizeToken(path)
    case None => path
    case Some((i, e)) => path[..i] + path[e..]
  }

  /**
   * clean_thumb_url: an empty URL is returned as it is; otherwise only the path
   * may change, and it changes exactly as re.sub rewrites it.
   */
  function CleanThumbUrl(u: Url): (r: Url)
    ensures u == EmptyUrl ==> r == u
    ensures r.scheme == u.scheme && r.netloc == u.netloc
    ensures r.params == u.params && r.query == u.query && r.fragment == u.fragment
    ensures forall i, e :: MatchAt(u.path, i, e) ==> r.path == u.path[..i] + u.path[e..]
    ensures (forall i, e :: !MatchAt(u.path, i, e)) ==> r == u
  {
    if u == EmptyUrl then u
    else Url(u.scheme, u.netloc, CleanPath(u.path), u.params, u.query, u.fragment)
  }

  /** In "stem-<W>x<H>.ext" the pattern matches the size token "-<W>x<H>". */
  lemma SizeSuffixMatches(stem: string, w: string, h: string, ext: string)
    requires Digits(w) && Digits(h) && WordChars(ext)
    ensures var s := stem + "-" + w + "x" + h + "." + ext;
      MatchAt(s, |stem|, |stem| + |w| + |h| + 2)
  {
    var b := stem + "-" + w;
    var d := b + "x" + h;
    var s := d + "." + ext;
    var i, j, e := |stem|, |b|, |d|;
    assert s[..e] == d;
    assert d[..j] == b;
    assert s[i] == b[i] == '-';
    assert s[j] == d[j] == 'x';
    assert s[i + 1..j] == b[i + 1..] == w;
    assert s[j + 1..e] == d[j + 1..] == h;
    assert s[e] == '.';
    assert s[e + 1..] == ext;
    assert SizeTokenAt(s, i, j, e);
  }

  /** A path "stem-<W>x<H>.ext" loses exactly its size token: it becomes "stem.ext". */
  lemma CleanStripsSizeSuffix(stem: string, w: string, h: string, ext: string)
    requires Digits(w) && Digits(h) && WordChars(ext)
    ensures CleanPath(stem + "-" + w + "x" + h + "." + ext) == stem + "." + ext
  {
    var s := stem + "-" + w + "x" + h + "." + ext;
    var e := |stem| + |w| + |h| + 2;
    SizeSuffixMatches(stem, w, h, ext);
    CleanPathAtMatch(s, |stem|, e);
    AroundSizeToken(stem, w, h, ext);
  }

  lemma CleanPathAtMatch(s: string, i: int, e: int)
    requires MatchAt(s, i, e)
    ensures 0 <= i <= e <= |s| && CleanPath(s) == s[..i] + s[e..]
  {
  }

  /** What lies before and after the size token of "stem-<W>x<H>.ext". */
  lemma AroundSizeToken(stem: string, w: string, h: string, ext: string)
    ensures var s := stem + "-" + w + "x" + h + "." + ext;
      && s[..|stem|] == stem
      && s[|stem| + |w| + |h| + 2..] == "." + ext
  {
    var s := stem + "-" + w + "x" + h + "." + ext;
    assert s == stem + ("-" + w + "x" + h) + ("." + ext);
  }

  /**
   * A thumbnail URL whose path is "stem-<W>x<H>.ext" is cleaned to "stem.ext" with
   * every other component unchanged, and is labelled by its extension.
   */
  lemma CleanedThumbnail(u: Url, stem: string, w: string, h: string, ext: string)
    requires Digits(w) && Digits(h) && WordChars(ext)
    requires u.path == stem + "-" + w + "x" + h + "." + ext
    ensures CleanThumbUrl(u) == u.(path := stem + "." + ext)
    ensures GuessMime(CleanThumbUrl(u)) == MimeOfExtension(Lower(ext))
  {
    CleanStripsSizeSuffix(stem, w, h, ext);
    assert '.' !in ext by {
      forall k | 0 <= k < |ext| ensures ext[k] != '.' {
        assert IsWordChar(ext[k]);
      }
    }
    GuessMimeByExtension(CleanThumbUrl(u), stem, ext);
  }

  /**
   * One call removes one token only: "a-1x2-3x4.jpg" becomes "a-1x2.jpg", and a
   * second call makes it "a.jpg"; so clean_thumb_url is not idempotent.
   */
  lemma {:induction false} CleanPathNotIdempotent(stem: string, w1: string, h1: string, w2: string, h2: string, ext: string)
    requires Digits(w1) && Digits(h1) && Digits(w2) && Digits(h2) && WordChars(ext)
    ensures var once := stem + "-" + w1 + "x" + h1 + "." + ext;
      && CleanPath(stem + "-" + w1 + "x" + h1 + "-" + w2 + "x" + h2 + "." + ext) == once
      && CleanPath(once) == stem + "." + ext
      && CleanPath(once) != once
  {
    CleanStripsSizeSuffix(stem + "-" + w1 + "x" + h1, w2, h2, ext);
    CleanStripsSizeSuffix(stem, w1, h1, ext);
  }
}
