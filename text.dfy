/** The string expressions inlined in app.py: the short file heading, the file URL,
    the base domain and the login-failure test. */
module Text {
  import opened Types

  const FILES_PATH := "/files/original/"
  const LOGIN_MARKER := "login"

  /** `file_heading_full.split(":")[0]` (app.py:108): the text before the first colon. */
  function ShortHeading(s: string): (r: string)
    ensures r <= s
    ensures ':' !in r
    ensures |r| == |s| || s[|r|] == ':'
  {
    if s == [] || s[0] == ':' then [] else [s[0]] + ShortHeading(s[1..])
  }

  /** The three ensures of ShortHeading pin its result down: any prefix without a colon
      that stops at the end or at a colon is that result. */
  lemma ShortHeadingUnique(s: string, r: string)
    requires r <= s && ':' !in r
    requires |r| == |s| || s[|r|] == ':'
    ensures r == ShortHeading(s)
  {
  }

  /** A heading without a colon is kept whole, and splitting twice changes nothing. */
  lemma ShortHeadingFixedPoints(s: string)
    ensures ':' !in s ==> ShortHeading(s) == s
    ensures ShortHeading(ShortHeading(s)) == ShortHeading(s)
  {
  }

  /** `f"{parsed.scheme}://{parsed.netloc}"` (app.py:152). */
  function BaseDomain(scheme: string, netloc: string): string {
    scheme + "://" + netloc
  }

  /** `f"{base_domain}/files/original/{filename}"` (app.py:118). */
  function FileUrl(baseDomain: string, filename: string): string {
    baseDomain + FILES_PATH + filename
  }

  /** The inverse of FileUrl for a fixed base domain: the filename a file URL ends in. */
  function FilenameOf(baseDomain: string, url: string): (r: Option<string>)
    ensures r.Some? ==> url == FileUrl(baseDomain, r.value)
  {
    var prefix := baseDomain + FILES_PATH;
    if prefix <= url then Some(url[|prefix|..]) else None
  }

  /** Every file URL gives back exactly the filename it was built from, so distinct
      filenames give distinct URLs. */
  lemma FileUrlRoundTrip(baseDomain: string, filename: string)
    ensures FilenameOf(baseDomain, FileUrl(baseDomain, filename)) == Some(filename)
  {
  }

  lemma FileUrlInjective(baseDomain: string, f1: string, f2: string)
    requires FileUrl(baseDomain, f1) == FileUrl(baseDomain, f2)
    ensures f1 == f2
  {
    FileUrlRoundTrip(baseDomain, f1);
    FileUrlRoundTrip(baseDomain, f2);
  }

  /** `pat` stands in `s` at position i. */
  ghost predicate OccursAt(s: string, pat: string, i: int) {
    0 <= i && i + |pat| <= |s| && s[i..i + |pat|] == pat
  }

  lemma OccursShift(s: string, pat: string)
    requires s != [] && !(pat <= s)
    ensures (exists i :: OccursAt(s, pat, i)) <==> (exists i :: OccursAt(s[1..], pat, i))
  {
    if exists i :: OccursAt(s, pat, i) {
      var i :| OccursAt(s, pat, i);
      assert i != 0;
      assert s[1..][i - 1..i - 1 + |pat|] == s[i..i + |pat|];
      assert OccursAt(s[1..], pat, i - 1);
    }
    if exists i :: OccursAt(s[1..], pat, i) {
      var i :| OccursAt(s[1..], pat, i);
      assert s[1..][i..i + |pat|] == s[i + 1..i + 1 + |pat|];
      assert OccursAt(s, pat, i + 1);
    }
  }

  /** Python's substring test `pat in s`. */
  function Contains(s: string, pat: string): (r: bool)
    ensures r <==> exists i :: OccursAt(s, pat, i)
  {
    if pat <= s then
      assert OccursAt(s, pat, 0);
      true
    else if s == [] then
      false
    else
      OccursShift(s, pat);
      Contains(s[1..], pat)
  }

  /** The login-failure test `"login" in page.url` (app.py:176). */
  function IsLoginPage(url: string): bool {
    Contains(url, LOGIN_MARKER)
  }
}
