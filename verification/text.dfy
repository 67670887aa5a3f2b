/** String helpers for request fields: PHP's `strtolower` and the falsiness
    tests `empty($x)` / `!$x` that the controllers apply to request values.
 */
module Text {
  import opened Outcome

  /** Lower-casing of one character, ASCII letters only; other characters,
      including non-ASCII letters, are left as they are. */
  function LowerChar(c: char): char {
    if 'A' <= c <= 'Z' then (c as int + 32) as char else c
  }

  function ToLower(s: string): (r: string)
    ensures |r| == |s|
    ensures forall i :: 0 <= i < |s| ==> r[i] == LowerChar(s[i])
  {
    seq(|s|, i requires 0 <= i < |s| => LowerChar(s[i]))
  }

  /** Lower-casing twice is lower-casing once. */
  lemma ToLowerIdempotent(s: string)
    ensures ToLower(ToLower(s)) == ToLower(s)
  {
  }

  /** A request field is falsy in PHP when it is absent (or null), the empty
      string, or the string "0"; this is what `empty($data[...])` and `!$x`
      test. */
  predicate Falsy(v: Option<string>) {
    v.None? || v.value == "" || v.value == "0"
  }
}
