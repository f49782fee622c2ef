/** JavaScript's `String.prototype.trim`, which the handlers and the form pages
    use on every title and description. */
module JsText {

  /** ECMAScript WhiteSpace and LineTerminator code points: the characters
      `trim` removes from both ends of a string. */
  predicate IsJsSpace(c: char) {
    || c == '\t' || c == '\n' || c == '\U{000B}' || c == '\U{000C}' || c == '\r'
    || c == ' ' || c == '\U{00A0}' || c == '\U{1680}'
    || ('\U{2000}' <= c <= '\U{200A}')
    || c == '\U{2028}' || c == '\U{2029}' || c == '\U{202F}' || c == '\U{205F}'
    || c == '\U{3000}' || c == '\U{FEFF}'
  }

  /** Every character of `s` is whitespace (the empty string included). */
  predicate Blank(s: string) {
    forall i :: 0 <= i < |s| ==> IsJsSpace(s[i])
  }

  /** `s` neither starts nor ends with whitespace. */
  predicate Trimmed(s: string) {
    s == "" || (!IsJsSpace(s[0]) && !IsJsSpace(s[|s| - 1]))
  }

  /** `r` occurs in `s` starting at index `i`. */
  predicate SliceAt(r: string, s: string, i: int) {
    0 <= i <= |s| - |r| && r == s[i..i + |r|]
  }

  /** Drops the trailing whitespace: the result is the prefix of `s` before a
      run of whitespace, and it does not end with whitespace. */
  function TrimEnd(s: string): (r: string)
    ensures |r| <= |s| && r == s[..|r|]
    ensures forall i :: |r| <= i < |s| ==> IsJsSpace(s[i])
    ensures r != "" ==> !IsJsSpace(r[|r| - 1])
    decreases |s|
  {
    if |s| > 0 && IsJsSpace(s[|s| - 1]) then TrimEnd(s[..|s| - 1]) else s
  }

  /** `s.trim()`: the leading whitespace is dropped one character at a time,
      then `TrimEnd` drops the trailing whitespace. The result has no
      whitespace at either end, and it is empty exactly when `s` is blank. */
  function Trim(s: string): (r: string)
    ensures Trimmed(r)
    ensures r == "" ==> Blank(s)
    ensures Blank(s) ==> r == ""
    decreases |s|
  {
    if |s| > 0 && IsJsSpace(s[0]) then Trim(s[1..])
    else
      var r := TrimEnd(s);
      assert r != "" ==> r[0] == s[0];
      r
  }

  /** `r` occurs in `s` at index `i`, with only whitespace before and after
      it. */
  predicate TrimmedAt(r: string, s: string, i: int) {
    SliceAt(r, s, i) && Blank(s[..i]) && Blank(s[i + |r|..])
  }

  /** Putting one whitespace character in front of `s` moves the piece one
      place to the right. */
  lemma TrimmedAtShift(r: string, s: string, i: int)
    requires |s| > 0 && IsJsSpace(s[0]) && TrimmedAt(r, s[1..], i)
    ensures TrimmedAt(r, s, i + 1)
  {
  }

  /** `trim` returns a contiguous piece of its input, and what it drops on
      either side is whitespace only. Together with `Trimmed`, this
      determines the result: only leading and trailing whitespace goes. */
  lemma {:induction false} TrimIsSlice(s: string)
    ensures exists i :: TrimmedAt(Trim(s), s, i)
    decreases |s|
  {
    if |s| > 0 && IsJsSpace(s[0]) {
      TrimIsSlice(s[1..]);
      var i :| TrimmedAt(Trim(s[1..]), s[1..], i);
      TrimmedAtShift(Trim(s), s, i);
    } else {
      assert TrimmedAt(Trim(s), s, 0);
    }
  }

  /** Trimming a string that is already trimmed changes nothing. */
  lemma TrimOfTrimmed(s: string)
    requires Trimmed(s)
    ensures Trim(s) == s
  {
  }

  /** `trim` is idempotent. */
  lemma TrimIdempotent(s: string)
    ensures Trim(Trim(s)) == Trim(s)
  {
  }
}
