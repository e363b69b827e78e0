/**
 What the regular expression `/\.(js|css|png|jpg|jpeg|gif|svg|woff2?|ttf|eot)$/i`
 accepts, stated directly as a search over start positions: some position
 holds a literal dot, and the rest of the string, compared without regard to
 ASCII letter case, is one of the alternatives (`$` leaves nothing after it).

 Without the `u` flag, JavaScript's case-insensitive matching never maps a
 character outside ASCII onto an ASCII one, and every alternative is ASCII,
 so folding ASCII upper case to lower case is exactly the comparison the
 regular expression makes.
 */
module StaticAssetPattern {

  /** The alternatives of the group, with `woff2?` spelled out as `woff` and `woff2`. */
  const Extensions: seq<string> :=
    ["js", "css", "png", "jpg", "jpeg", "gif", "svg", "woff", "woff2", "ttf", "eot"]

  function FoldChar(c: char): char {
    if 'A' <= c <= 'Z' then (c as int + 32) as char else c
  }

  /** ASCII lower-casing, character by character. */
  function Fold(s: string): (t: string)
    ensures |t| == |s|
    ensures forall i :: 0 <= i < |s| ==> t[i] == FoldChar(s[i])
  {
    seq(|s|, i requires 0 <= i < |s| => FoldChar(s[i]))
  }

  predicate IsAsciiAlnum(c: char) {
    'a' <= c <= 'z' || 'A' <= c <= 'Z' || '0' <= c <= '9'
  }

  predicate IsLowerAlnum(c: char) {
    'a' <= c <= 'z' || '0' <= c <= '9'
  }

  /** The regular expression matches with its `.` at position `i`. */
  predicate MatchesAt(url: string, i: int) {
    0 <= i < |url| && url[i] == '.' && Fold(url[i + 1..]) in Extensions
  }

  /** The regular expression matches somewhere in `url`. */
  predicate Matches(url: string) {
    exists i :: 0 <= i < |url| && MatchesAt(url, i)
  }

  /** `s` ends with `suffix` when letter case is ignored; `suffix` is given in lower case. */
  predicate EndsWithIgnoringCase(s: string, suffix: string) {
    |suffix| <= |s| && Fold(s[|s| - |suffix|..]) == suffix
  }

  /**
   Every alternative is made of lower-case ASCII letters and digits only (in
   particular, no dot and nothing that folding would change).
   */
  lemma ExtensionsAreLowerAlnum()
    ensures forall k, j :: 0 <= k < |Extensions| && 0 <= j < |Extensions[k]| ==>
              IsLowerAlnum(Extensions[k][j])
  {
  }

  /** Folding commutes with taking a suffix. */
  lemma FoldSuffix(s: string, i: nat)
    requires i <= |s|
    ensures Fold(s[i..]) == Fold(s)[i..]
  {
  }

  /**
   The regular expression matches exactly when the string ends in a dot
   followed by one of the extensions, in any letter case.
   */
  lemma MatchesIffDotExtensionSuffix(url: string)
    ensures Matches(url) <==>
              exists k :: 0 <= k < |Extensions| && EndsWithIgnoringCase(url, "." + Extensions[k])
  {
    if Matches(url) {
      var i :| 0 <= i < |url| && MatchesAt(url, i);
      var e := Fold(url[i + 1..]);
      assert e in Extensions;
      var k :| 0 <= k < |Extensions| && Extensions[k] == e;
      var suffix := "." + e;
      assert url[|url| - |suffix|..] == url[i..];
      assert Fold(url[i..]) == suffix;
      assert EndsWithIgnoringCase(url, "." + Extensions[k]);
    }
    if k :| 0 <= k < |Extensions| && EndsWithIgnoringCase(url, "." + Extensions[k]) {
      var suffix := "." + Extensions[k];
      var i := |url| - |suffix|;
      assert Fold(url[i..])[0] == '.';
      assert url[i] == '.';
      assert Fold(url[i + 1..]) == Fold(url[i..])[1..] == Extensions[k];
      assert MatchesAt(url, i);
    }
  }
}
