/**
 * The two JavaScript string builtins the search filter relies on:
 * `String.prototype.toLowerCase` (restricted to ASCII letters) and
 * `String.prototype.includes` (substring test).
 */
module JsString {

  /** Lower-cases one character: 'A'..'Z' become 'a'..'z', all else is kept. */
  function LowerChar(c: char): (r: char)
    ensures 'A' <= c <= 'Z' ==> 'a' <= r <= 'z' && r as int - c as int == 'a' as int - 'A' as int
    ensures !('A' <= c <= 'Z') ==> r == c
  {
    if 'A' <= c <= 'Z' then (c as int - 'A' as int + 'a' as int) as char else c
  }

  /** `s.toLowerCase()` on ASCII letters: same length, each character lowered. */
  function ToLower(s: string): (r: string)
    ensures |r| == |s|
    ensures forall i :: 0 <= i < |s| ==> r[i] == LowerChar(s[i])
  {
    if s == [] then [] else [LowerChar(s[0])] + ToLower(s[1..])
  }

  /** `pat` occurs in `text` starting at index `i`. */
  predicate OccursAt(text: string, pat: string, i: int)
  {
    0 <= i && i + |pat| <= |text| && text[i..i + |pat|] == pat
  }

  /** `pat` occurs somewhere in `text`. */
  ghost predicate Occurs(text: string, pat: string)
  {
    exists i :: OccursAt(text, pat, i)
  }

  /** An occurrence in `text[1..]` is an occurrence in `text` one place further on. */
  lemma OccursAtShift(text: string, pat: string, i: int)
    requires |text| > 0 && 0 <= i
    ensures OccursAt(text[1..], pat, i) <==> OccursAt(text, pat, i + 1)
  {
    if 0 <= i && i + |pat| <= |text| - 1 {
      assert text[1..][i..i + |pat|] == text[i + 1..i + 1 + |pat|];
    }
  }

  /** `text.includes(pat)`: true iff `pat` occurs somewhere in `text`. */
  function Includes(text: string, pat: string): (r: bool)
    ensures r <==> exists i :: OccursAt(text, pat, i)
    decreases |text|
  {
    if pat <= text then
      assert OccursAt(text, pat, 0);
      true
    else if text == [] then
      assert forall i :: !OccursAt(text, pat, i);
      false
    else
      assert !OccursAt(text, pat, 0);
      assert forall i | 0 <= i :: OccursAt(text[1..], pat, i) <==> OccursAt(text, pat, i + 1) by {
        forall i | 0 <= i ensures OccursAt(text[1..], pat, i) <==> OccursAt(text, pat, i + 1) {
          OccursAtShift(text, pat, i);
        }
      }
      assert (exists i :: OccursAt(text, pat, i)) ==> exists i :: OccursAt(text[1..], pat, i) by {
        if exists i :: OccursAt(text, pat, i) {
          var i :| OccursAt(text, pat, i);
          assert i >= 1;
          assert OccursAt(text[1..], pat, i - 1);
        }
      }
      Includes(text[1..], pat)
  }

  /** The empty pattern occurs in every text. */
  lemma IncludesEmpty(text: string)
    ensures Includes(text, "")
  {
    assert OccursAt(text, "", 0);
  }
}
