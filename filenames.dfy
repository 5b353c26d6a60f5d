/**
 * `clean_filename` (summarize.py, lines 64-65): `re.sub(r'[^\w\-_.]', '_', text)`.
 * Every character outside the class "word character, `-`, `_`, `.`" is
 * replaced by one `_`; everything else is kept where it stands.
 */
module FileNames {

  /** `\w`, restricted to ASCII: letters, digits and the underscore. */
  predicate IsWordChar(c: char) {
    ('a' <= c <= 'z') || ('A' <= c <= 'Z') || ('0' <= c <= '9') || c == '_'
  }

  /** The regular-expression class `[\w\-_.]`. */
  predicate IsSafeChar(c: char) {
    IsWordChar(c) || c == '-' || c == '_' || c == '.'
  }

  /** One substitution step of `re.sub`: a character outside the class becomes `_`. */
  function SafeChar(c: char): char {
    if IsSafeChar(c) then c else '_'
  }

  predicate AllSafe(s: string) {
    forall i :: 0 <= i < |s| ==> IsSafeChar(s[i])
  }

  /**
   * The sanitised name: same length, every character allowed, the allowed
   * characters of `s` kept at their positions and `_` exactly where `s`
   * had a disallowed one.
   */
  function CleanFilename(s: string): (r: string)
    ensures |r| == |s|
    ensures AllSafe(r)
    ensures forall i :: 0 <= i < |s| ==> if IsSafeChar(s[i]) then r[i] == s[i] else r[i] == '_'
  {
    if s == [] then [] else [SafeChar(s[0])] + CleanFilename(s[1..])
  }

  /** A name is left as it is exactly when all its characters are allowed. */
  lemma CleanFilenameFixes(s: string)
    ensures CleanFilename(s) == s <==> AllSafe(s)
  {
    if AllSafe(s) {
      assert forall i :: 0 <= i < |s| ==> CleanFilename(s)[i] == s[i];
    }
  }

  /** Cleaning a cleaned name changes nothing. */
  lemma CleanFilenameIdempotent(s: string)
    ensures CleanFilename(CleanFilename(s)) == CleanFilename(s)
  {
    CleanFilenameFixes(CleanFilename(s));
  }

  /** The substitution works character by character, so it distributes over concatenation. */
  lemma CleanFilenameAppend(a: string, b: string)
    ensures CleanFilename(a + b) == CleanFilename(a) + CleanFilename(b)
  {
    var l, r := CleanFilename(a + b), CleanFilename(a) + CleanFilename(b);
    assert forall i :: 0 <= i < |a + b| ==> l[i] == r[i] by {
      forall i | 0 <= i < |a + b|
        ensures l[i] == r[i]
      {
        if i < |a| { assert (a + b)[i] == a[i]; } else { assert (a + b)[i] == b[i - |a|]; }
      }
    }
  }

  /** A slash between two allowed parts of a column name (`latency/read`) becomes an underscore (`latency_read`). */
  lemma CleanFilenameSlash(a: string, c: string)
    requires AllSafe(a) && AllSafe(c)
    ensures CleanFilename(a + "/" + c) == a + "_" + c
  {
    CleanFilenameFixes(a);
    CleanFilenameFixes(c);
    assert CleanFilename("/") == "_";
    CleanFilenameAppend(a, "/");
    CleanFilenameAppend(a + "/", c);
  }
}
