/** Turning an uploaded file's name into one that is safe to store. */
module Uploading {

  /** The characters replaced, in the order the source replaces them. */
  const Delimiters: seq<char> :=
    ['\'', '\\', '/', ':', '*', '?', '"', '<', '>', '|', '!', '@', '#', '$', '%', '^', '&',
     '{', '}', '`', '=', '~', ',', ' ', '[', ']']

  /** The replacement the public overload uses. */
  const DefaultReplacement: char := '_'

  /** `s.IndexOfAny(chars)`: the first position holding one of `chars`, or -1. */
  function IndexOfAny(s: string, chars: seq<char>): (r: int)
    ensures -1 <= r < |s|
    ensures r >= 0 <==> exists i :: 0 <= i < |s| && s[i] in chars
    ensures r >= 0 ==> s[r] in chars && forall i :: 0 <= i < r ==> s[i] !in chars
    decreases |s|
  {
    if s == [] then -1
    else if s[0] in chars then 0
    else
      var r := IndexOfAny(s[1..], chars);
      assert forall i :: 1 <= i < |s| ==> s[i] == s[1..][i - 1];
      if r < 0 then -1 else r + 1
  }

  /** `s.Replace(c, replacement)`: every `c` becomes `replacement`. */
  function Replace(s: string, c: char, replacement: char): (r: string)
    ensures |r| == |s|
    ensures forall i :: 0 <= i < |s| ==> r[i] == if s[i] == c then replacement else s[i]
    ensures c != replacement ==> c !in r
    ensures forall ch :: ch in r ==> ch in s || ch == replacement
  {
    seq(|s|, i requires 0 <= i < |s| => if s[i] == c then replacement else s[i])
  }

  /** `chars.Aggregate(s, (current, t) => current.Replace(t, replacement))`. */
  function ReplaceEach(s: string, chars: seq<char>, replacement: char): (r: string)
    ensures |r| == |s|
    ensures forall ch :: ch in chars && ch != replacement ==> ch !in r
    ensures forall ch :: ch in r ==> ch in s || ch == replacement
    decreases |chars|
  {
    if chars == [] then s else ReplaceEach(Replace(s, chars[0], replacement), chars[1..], replacement)
  }

  /** The fold of replacements acts on each position separately: a character
      in `chars` becomes `replacement`, any other stays. This holds even when
      `replacement` is itself in `chars`, since replacing it by itself is a
      no-op. */
  lemma {:induction false} ReplaceEachAt(s: string, chars: seq<char>, replacement: char)
    ensures |ReplaceEach(s, chars, replacement)| == |s|
    ensures forall i :: 0 <= i < |s| ==>
      ReplaceEach(s, chars, replacement)[i] == if s[i] in chars then replacement else s[i]
    decreases |chars|
  {
    if chars != [] {
      var s' := Replace(s, chars[0], replacement);
      ReplaceEachAt(s', chars[1..], replacement);
      forall i | 0 <= i < |s|
        ensures ReplaceEach(s, chars, replacement)[i] == if s[i] in chars then replacement else s[i]
      {
        assert s[i] in chars <==> s[i] == chars[0] || s[i] in chars[1..];
      }
    }
  }

  /** The private overload: with a replacement character of the caller's choice. */
  function WindowsSafeFileNameWith(fileName: string, replacement: char): (r: string)
    ensures |r| == |fileName|
    ensures forall i :: 0 <= i < |fileName| ==>
      r[i] == if fileName[i] in Delimiters then replacement else fileName[i]
  {
    if IndexOfAny(fileName, Delimiters) >= 0 then
      ReplaceEachAt(fileName, Delimiters, replacement);
      ReplaceEach(fileName, Delimiters, replacement)
    else fileName
  }

  /** `'_'` is not one of the delimiters. */
  lemma DefaultReplacementIsSafe()
    ensures DefaultReplacement !in Delimiters
  {
  }

  /** The public overload: every delimiter becomes `'_'`, so none is left. */
  function WindowsSafeFileName(fileName: string): (r: string)
    ensures |r| == |fileName|
    ensures forall i :: 0 <= i < |fileName| ==>
      r[i] == if fileName[i] in Delimiters then DefaultReplacement else fileName[i]
    ensures forall i :: 0 <= i < |r| ==> r[i] !in Delimiters
  {
    DefaultReplacementIsSafe();
    WindowsSafeFileNameWith(fileName, DefaultReplacement)
  }

  /** The result holds no delimiter exactly when the replacement is not one
      or the name had none to replace. */
  lemma NoDelimitersLeft(fileName: string, replacement: char)
    ensures (forall i :: 0 <= i < |fileName| ==> WindowsSafeFileNameWith(fileName, replacement)[i] !in Delimiters)
        <==> replacement !in Delimiters || forall i :: 0 <= i < |fileName| ==> fileName[i] !in Delimiters
  {
    var r := WindowsSafeFileNameWith(fileName, replacement);
    if replacement in Delimiters && exists i :: 0 <= i < |fileName| && fileName[i] in Delimiters {
      var i :| 0 <= i < |fileName| && fileName[i] in Delimiters;
      assert r[i] == replacement;
    }
  }

  /** A name without delimiters is returned as it is. */
  lemma UnchangedWithoutDelimiters(fileName: string, replacement: char)
    requires forall i :: 0 <= i < |fileName| ==> fileName[i] !in Delimiters
    ensures WindowsSafeFileNameWith(fileName, replacement) == fileName
  {
  }

  /** Making a name safe twice is the same as once. */
  lemma WindowsSafeFileNameIdempotent(fileName: string)
    ensures WindowsSafeFileName(WindowsSafeFileName(fileName)) == WindowsSafeFileName(fileName)
  {
  }

  /** The private overload is idempotent for every replacement: a second pass
      finds each delimiter position already holding the replacement. */
  lemma WindowsSafeFileNameWithIdempotent(fileName: string, replacement: char)
    ensures WindowsSafeFileNameWith(WindowsSafeFileNameWith(fileName, replacement), replacement)
         == WindowsSafeFileNameWith(fileName, replacement)
  {
  }
}
