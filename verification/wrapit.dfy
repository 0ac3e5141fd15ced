/** `wrapit`: cutting a text into lines of a fixed number of characters. */
module Wrapit {

  function Concat(lines: seq<string>): string {
    if lines == [] then [] else lines[0] + Concat(lines[1..])
  }

  /** The characters of `text` in chunks of `width`; the last chunk may be shorter. */
  function Wrapit(text: string, width: nat): (r: seq<string>)
    requires width > 0
    ensures forall i :: 0 <= i < |r| - 1 ==> |r[i]| == width
    ensures |r| > 0 ==> 1 <= |r[|r| - 1]| <= width
    ensures text == [] <==> r == []
    ensures (|r| - 1) * width < |text| <= |r| * width || (text == [] && r == [])
    decreases |text|
  {
    if text == [] then []
    else if |text| <= width then [text]
    else [text[..width]] + Wrapit(text[width..], width)
  }

  /** Joining the lines gives the text back. */
  lemma {:induction false} WrapitConcat(text: string, width: nat)
    requires width > 0
    ensures Concat(Wrapit(text, width)) == text
    decreases |text|
  {
    if text != [] && |text| > width {
      WrapitConcat(text[width..], width);
      var r := Wrapit(text, width);
      assert r[1..] == Wrapit(text[width..], width);
      assert text[..width] + text[width..] == text;
    }
  }
}
