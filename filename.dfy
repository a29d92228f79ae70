/**
 * sanitize_filename: every character that Windows forbids in a file name
 * is replaced by an underscore, and the result is cut to 200 characters.
 * Both front ends carry the same definition.
 */
module Filename {
  import opened StrOps

  /** The nine characters the sanitizer rewrites. */
  const IllegalChars: string := "<>:\"/\\|?*"

  /** The replacement character, itself legal. */
  const Underscore: char := '_'

  /** The longest name the sanitizer lets through. */
  const MaxNameLength: nat := 200

  /** What one character of the input becomes. */
  function SafeChar(c: char): (d: char)
    ensures d !in IllegalChars
    ensures c !in IllegalChars ==> d == c
  {
    if c in IllegalChars then Underscore else c
  }

  /** True when a name has no illegal character. */
  predicate IsClean(s: string) {
    forall i :: 0 <= i < |s| ==> s[i] !in IllegalChars
  }

  /** The sanitized form of a name: the first 200 characters, each made safe. */
  function Sanitize(s: string): (r: string)
    ensures |r| == if |s| <= MaxNameLength then |s| else MaxNameLength
    ensures IsClean(r)
  {
    var n := if |s| <= MaxNameLength then |s| else MaxNameLength;
    seq(n, i requires 0 <= i < n => SafeChar(s[i]))
  }

  /**
   * The sanitizer as the source runs it: one pass of str.replace per
   * illegal character, then the length cut.  Position i of the result is
   * '_' when input position i held an illegal character and the input
   * character otherwise.
   */
  method SanitizeFilename(filename: string) returns (r: string)
    ensures |r| == if |filename| <= MaxNameLength then |filename| else MaxNameLength
    ensures forall i :: 0 <= i < |r| ==> r[i] == if filename[i] in IllegalChars then Underscore else filename[i]
    ensures r == Sanitize(filename)
  {
    r := filename;
    for k := 0 to |IllegalChars|
      invariant |r| == |filename|
      invariant forall i :: 0 <= i < |r| ==>
        r[i] == if filename[i] in IllegalChars[..k] then Underscore else filename[i]
    {
      assert forall c :: c in IllegalChars[..k + 1] <==> c in IllegalChars[..k] || c == IllegalChars[k];
      r := ReplaceAll(r, IllegalChars[k], Underscore);
    }
    assert IllegalChars[..|IllegalChars|] == IllegalChars;
    if |r| > MaxNameLength {
      r := r[..MaxNameLength];
    }
  }

  /** Sanitizing twice is sanitizing once. */
  lemma SanitizeIdempotent(s: string)
    ensures Sanitize(Sanitize(s)) == Sanitize(s)
  {
    var r := Sanitize(s);
    assert forall i :: 0 <= i < |r| ==> SafeChar(r[i]) == r[i];
  }

  /** A name is left as it is exactly when it is clean and at most 200 characters long. */
  lemma SanitizeFixedPoints(s: string)
    ensures Sanitize(s) == s <==> IsClean(s) && |s| <= MaxNameLength
  {
    if IsClean(s) && |s| <= MaxNameLength {
      assert forall i :: 0 <= i < |s| ==> SafeChar(s[i]) == s[i];
    }
  }

  /** The name of the image written for a row: clean, bounded, ending in .png, never a path. */
  function ImageName(rowName: string): (f: string)
    ensures IsClean(f) && '/' !in f
    ensures 4 <= |f| <= MaxNameLength + 4 && f[|f| - 4..] == ".png"
  {
    var f := Sanitize(rowName) + ".png";
    assert forall i :: 0 <= i < |f| ==> f[i] !in IllegalChars;
    f
  }

  /** Two rows named a:b and a?b write the same image file. */
  lemma ImageNameCollision()
    ensures "a:b" != "a?b" && ImageName("a:b") == ImageName("a?b")
  {
    assert Sanitize("a:b") == "a_b" == Sanitize("a?b");
  }
}
