/**
 The asset helpers the network test uses: reading an asset's size from its
 `content-length` header, classifying a URL as a static asset by its file
 extension, and comparing a size against a maximum.
 */
module AssetHelpers {
  import opened JsValues
  import opened StaticAssetPattern

  /**
   The size of an asset from its `content-length` header: a missing or empty
   header has no size (the header text is tested for truthiness); any other
   text is converted with `Number`.
   */
  function GetAssetSize(contentLength: Option<string>): (size: Option<Num>)
    ensures size.None? <==> contentLength.None? || contentLength.value == ""
    ensures contentLength.Some? && contentLength.value != "" ==>
              size == Some(ToNumber(contentLength.value))
    ensures contentLength == Some("0") ==> size == Some(Finite(0))
  {
    match contentLength
    case None => None
    case Some(text) => if text == "" then None else Some(ToNumber(text))
  }

  /** A header that carries a printed byte count yields that count. */
  lemma SizeOfPrintedHeader(n: nat)
    ensures GetAssetSize(Some(FormatDecimal(n))) == Some(Finite(n))
  {
  }

  /** The position of the last dot in `s`, if there is one. */
  function LastDot(s: string): (k: Option<nat>)
    ensures k.Some? ==> k.value < |s| && s[k.value] == '.'
    ensures k.Some? ==> forall j :: k.value < j < |s| ==> s[j] != '.'
    ensures k.None? ==> forall j :: 0 <= j < |s| ==> s[j] != '.'
  {
    if s == [] then None
    else if s[|s| - 1] == '.' then Some(|s| - 1)
    else LastDot(s[..|s| - 1])
  }

  /** No extension contains a dot, so a match can only use the last dot of the URL. */
  lemma MatchUsesLastDot(url: string, i: int)
    requires MatchesAt(url, i)
    ensures LastDot(url) == Some(i)
  {
  }

  /**
   `isStaticAsset(url)`: the text after the last dot of the URL, lower-cased,
   is one of the static extensions.
   */
  predicate IsStaticAsset(url: string)
  {
    match LastDot(url)
    case None => false
    case Some(k) => Fold(url[k + 1..]) in Extensions
  }

  /** Looking only at the last dot accepts exactly what the regular expression accepts. */
  lemma StaticIffPatternMatches(url: string)
    ensures IsStaticAsset(url) <==> Matches(url)
  {
    if Matches(url) {
      var i :| 0 <= i < |url| && MatchesAt(url, i);
      MatchUsesLastDot(url, i);
    }
    if IsStaticAsset(url) {
      assert MatchesAt(url, LastDot(url).value);
    }
  }

  /**
   A URL is a static asset iff it ends in a dot followed by one of js, css,
   png, jpg, jpeg, gif, svg, woff, woff2, ttf or eot, in any letter case.
   */
  lemma StaticIffDotExtension(url: string)
    ensures IsStaticAsset(url) <==>
              exists k :: 0 <= k < |Extensions| && EndsWithIgnoringCase(url, "." + Extensions[k])
  {
    StaticIffPatternMatches(url);
    MatchesIffDotExtensionSuffix(url);
  }

  /** Two URLs that differ only in ASCII letter case are classified alike. */
  lemma {:induction false} CaseInsensitive(u: string, v: string)
    requires Fold(u) == Fold(v)
    ensures IsStaticAsset(u) == IsStaticAsset(v)
  {
    StaticIffPatternMatches(u);
    StaticIffPatternMatches(v);
    if Matches(u) {
      var i :| 0 <= i < |u| && MatchesAt(u, i);
      SameFoldSameMatch(u, v, i);
    }
    if Matches(v) {
      var i :| 0 <= i < |v| && MatchesAt(v, i);
      SameFoldSameMatch(v, u, i);
    }
  }

  lemma SameFoldSameMatch(u: string, v: string, i: int)
    requires Fold(u) == Fold(v)
    requires MatchesAt(u, i)
    ensures MatchesAt(v, i)
  {
    assert |u| == |Fold(u)| == |v|;
    assert FoldChar(v[i]) == Fold(v)[i] == Fold(u)[i] == '.';
    FoldSuffix(u, i + 1);
    FoldSuffix(v, i + 1);
  }

  /**
   The match is anchored at the end: once a character that is neither a
   letter, a digit nor a dot follows, and no dot comes after it (a query
   string `?v=1`, a fragment `#x`), the URL is not a static asset.
   */
  lemma {:induction false} TrailingTextBreaksMatch(prefix: string, c: char, rest: string)
    requires !IsAsciiAlnum(c) && c != '.'
    requires forall j :: 0 <= j < |rest| ==> rest[j] != '.'
    ensures !IsStaticAsset(prefix + [c] + rest)
  {
    var url := prefix + [c] + rest;
    StaticIffPatternMatches(url);
    if Matches(url) {
      var i :| 0 <= i < |url| && MatchesAt(url, i);
      assert i < |prefix|;
      var p := |prefix| - i - 1;
      assert Fold(url[i + 1..])[p] == c;
      ExtensionsAreLowerAlnum();
      assert false;
    }
  }

  /** A URL with no dot at all, such as `foojs`, is not a static asset. */
  lemma NoDotNotStatic(url: string)
    requires forall j :: 0 <= j < |url| ==> url[j] != '.'
    ensures !IsStaticAsset(url)
  {
  }

  /** A dot with no dot after it is the last dot. */
  lemma LastDotIsUnique(url: string, i: nat)
    requires i < |url| && url[i] == '.'
    requires forall j :: i < j < |url| ==> url[j] != '.'
    ensures LastDot(url) == Some(i)
  {
  }

  /** In `name.ext` with no dot in `ext`, the dot before `ext` is the last one. */
  lemma LastDotBeforeExtension(name: string, ext: string)
    requires forall j :: 0 <= j < |ext| ==> ext[j] != '.'
    ensures LastDot(name + "." + ext) == Some(|name|)
    ensures (name + "." + ext)[|name| + 1..] == ext
  {
    var url := name + "." + ext;
    assert |url| == |name| + 1 + |ext| && url[|name|] == '.';
    assert url[|name| + 1..] == ext;
    assert forall j :: |name| < j < |url| ==> url[j] == ext[j - |name| - 1];
    LastDotIsUnique(url, |name|);
  }

  /** `name.ext` is a static asset iff `ext`, lower-cased, is one of the extensions. */
  lemma {:induction false} NamedAsset(name: string, ext: string)
    requires forall j :: 0 <= j < |ext| ==> ext[j] != '.'
    ensures IsStaticAsset(name + "." + ext) <==> Fold(ext) in Extensions
  {
    LastDotBeforeExtension(name, ext);
  }

  /** Extensions in upper or mixed case are accepted. */
  lemma UpperCaseExamples()
    ensures IsStaticAsset("APP.JS") && IsStaticAsset("logo.Png")
  {
    AcceptedExample("APP.JS", 3, "js");
    AcceptedExample("logo.Png", 4, "png");
  }

  /** `woff2?` accepts both font extensions. */
  lemma WoffExamples()
    ensures IsStaticAsset("font.woff") && IsStaticAsset("font.woff2")
  {
    AcceptedExample("font.woff", 4, "woff");
    AcceptedExample("font.woff2", 4, "woff2");
  }

  /** `url` has its last dot at `i`, and what follows folds to the extension `lower`. */
  lemma AcceptedExample(url: string, i: nat, lower: string)
    requires i < |url| && url[i] == '.' && |url| == i + 1 + |lower|
    requires forall j :: i < j < |url| ==> FoldChar(url[j]) == lower[j - i - 1]
    requires lower in Extensions
    ensures IsStaticAsset(url)
  {
    ExtensionsAreLowerAlnum();
    assert Fold(url[i + 1..]) == lower;
    LastDotIsUnique(url, i);
  }

  /**
   Only the text after the last dot decides: once a dot appears in `tail`,
   whatever comes before it has no effect on the classification.
   */
  lemma OnlyTextAfterLastDotMatters(prefix: string, tail: string)
    requires exists j :: 0 <= j < |tail| && tail[j] == '.'
    ensures IsStaticAsset(prefix + tail) == IsStaticAsset(tail)
  {
    var k := LastDot(tail).value;
    var url := prefix + tail;
    assert forall j :: |prefix| + k < j < |url| ==> url[j] == tail[j - |prefix|];
    LastDotIsUnique(url, |prefix| + k);
    assert url[|prefix| + k + 1..] == tail[k + 1..];
  }

  /**
   A query string that itself ends in a static extension keeps the URL
   static, because the pattern is anchored only at the end of the whole URL.
   */
  lemma QueryEndingInExtension()
    ensures IsStaticAsset("a.js?v=b.css")
  {
    AcceptedExample("a.js?v=b.css", 8, "css");
  }

  /** A query string, a fragment, a longer extension or a missing dot all reject. */
  lemma RejectedExamples()
    ensures !IsStaticAsset("a.js?v=1") && !IsStaticAsset("a.css#x")
    ensures !IsStaticAsset("bundle.mjs") && !IsStaticAsset("foojs")
  {
  }

  /**
   Whether an asset exceeds the maximum: the size must be present and strictly
   greater than the maximum. A NaN size compares false, so only a present,
   finite size can be oversized.
   */
  function IsOversized(size: Option<Num>, maxSize: int): (r: bool)
    ensures size.None? ==> !r
    ensures size == Some(NaN) ==> !r
    ensures size.Some? && size.value.Finite? ==> (r <==> size.value.value > maxSize)
  {
    match size
    case None => false
    case Some(NaN) => false
    case Some(Finite(n)) => n > maxSize
  }

  /** The threshold is strict: a size equal to the maximum is within budget. */
  lemma ExactMaximumNotOversized(maxSize: nat)
    ensures !IsOversized(Some(Finite(maxSize)), maxSize)
    ensures IsOversized(Some(Finite(maxSize + 1)), maxSize)
  {
  }

  /** Oversizing is monotone: a larger size against a smaller maximum stays oversized. */
  lemma OversizedMonotone(s: nat, t: nat, m: int, n: int)
    requires s <= t && n <= m
    ensures IsOversized(Some(Finite(s)), m) ==> IsOversized(Some(Finite(t)), n)
  {
  }
}
