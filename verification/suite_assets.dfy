/**
 The second copy of the asset helpers, kept beside the performance tests. Its
 text is the same as the shared helpers'. Here two of its three operations are
 written as loops of this model's own (one pass over the extension list, one
 pass over the header's digits) in place of the regular expression and
 `Number`, and each operation is proved to agree with the shared definition
 on every input.
 */
module SuiteAssets {
  import opened JsValues
  import opened StaticAssetPattern
  import AssetHelpers

  /** The size from the `content-length` header, reading the digits left to right. */
  method GetAssetSize(contentLength: Option<string>) returns (size: Option<Num>)
    ensures size == AssetHelpers.GetAssetSize(contentLength)
    ensures size.None? <==> contentLength.None? || contentLength.value == ""
    ensures size.Some? && size.value.Finite? ==> DecimalValue(contentLength.value) == size.value.value
  {
    if contentLength.None? || contentLength.value == "" {
      return None;
    }
    var text := contentLength.value;
    var value: nat := 0;
    var i := 0;
    while i < |text|
      invariant 0 <= i <= |text|
      invariant AllDigits(text[..i])
      invariant value == DecimalValue(text[..i])
    {
      if !IsDigit(text[i]) {
        return Some(NaN);
      }
      assert text[..i + 1][..i] == text[..i];
      value := 10 * value + DigitValue(text[i]);
      i := i + 1;
    }
    assert text[..i] == text;
    return Some(Finite(value));
  }

  /** `isStaticAsset(url)`, trying each extension as a case-insensitive suffix. */
  method IsStaticAsset(url: string) returns (r: bool)
    ensures r == AssetHelpers.IsStaticAsset(url)
    ensures r <==> Matches(url)
  {
    r := false;
    var k := 0;
    while k < |Extensions|
      invariant 0 <= k <= |Extensions|
      invariant r <==> exists j :: 0 <= j < k && EndsWithIgnoringCase(url, "." + Extensions[j])
    {
      if EndsWithIgnoringCase(url, "." + Extensions[k]) {
        r := true;
      }
      k := k + 1;
    }
    AssetHelpers.StaticIffDotExtension(url);
    AssetHelpers.StaticIffPatternMatches(url);
  }

  /** Whether a present size is strictly greater than the maximum. */
  function IsOversized(size: Option<Num>, maxSize: int): (r: bool)
    ensures r == AssetHelpers.IsOversized(size, maxSize)
  {
    size.Some? && size.value.Finite? && size.value.value > maxSize
  }
}
