/** The pure string extensions of the converter, over ASCII. */
module HelperExtensions {
  import opened Wrappers
  import Text

  /** `Char.isLowerCase()` on ASCII: the lowercase letters are the lowercase forms of the capitals. */
  predicate IsLower(c: char)
    ensures IsLower(c) <==> exists d :: 'A' <= d <= 'Z' && Text.LowerChar(d) == c
  {
    assert 'a' <= c <= 'z' ==> Text.LowerChar((c as int - 32) as char) == c;
    'a' <= c <= 'z'
  }

  /** `Char.titlecase()` of an ASCII lowercase letter: the capital whose lowercase form it is. */
  function TitleChar(c: char): (d: char)
    requires IsLower(c)
    ensures 'A' <= d <= 'Z' && Text.LowerChar(d) == c
  {
    (c as int - 32) as char
  }

  /** `String.capitalizeIt()`: `replaceFirstChar` with the titlecase of a lowercase first character. */
  function CapitalizeIt(s: string): (r: string)
    ensures |r| == |s|
    ensures s == [] ==> r == []
    ensures s != [] ==> r[1..] == s[1..]
    ensures s != [] && IsLower(s[0]) ==> 'A' <= r[0] <= 'Z' && Text.LowerChar(r[0]) == s[0]
    ensures s == [] || !IsLower(s[0]) ==> r == s
    ensures r == [] || !IsLower(r[0])
  {
    if s != [] && IsLower(s[0]) then [TitleChar(s[0])] + s[1..] else s
  }

  /** Capitalizing twice is capitalizing once. */
  lemma CapitalizeItIdempotent(s: string)
    ensures CapitalizeIt(CapitalizeIt(s)) == CapitalizeIt(s)
  {
  }

  /** `isNullOrEmpty()`. */
  predicate IsNullOrEmpty(s: Option<string>)
    ensures IsNullOrEmpty(s) <==> s == None || s == Some("")
  {
    s.None? || s.value == ""
  }

  /** `String?.ifNotEmpty(block)`, with the value the block would return passed in. */
  function IfNotEmpty(receiver: Option<string>, block: string): (r: string)
    ensures receiver.None? ==> r == ""
    ensures receiver == Some("") ==> r == ""
    ensures receiver.Some? && receiver.value != "" ==> r == block
  {
    if !IsNullOrEmpty(receiver) then block else ""
  }
}
