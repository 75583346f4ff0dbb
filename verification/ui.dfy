/** cartman/ui.py: console text helpers. */
module Ui {

  /** `underline(text)`: a line of dashes as long as `text`. */
  function Underline(text: string): (r: string)
    ensures |r| == |text|
    ensures forall i :: 0 <= i < |r| ==> r[i] == '-'
  {
    seq(|text|, _ => '-')
  }

  /** `title(text)`: the text over a dashed line of its own length; an empty
      text gives an empty title. */
  function Title(text: string): (r: string)
    ensures text == "" ==> r == ""
    ensures text != "" ==> |r| == 2 * |text| + 1
    ensures text != "" ==> r[..|text|] == text && r[|text|] == '\n'
    ensures text != "" ==> forall i :: |text| < i < |r| ==> r[i] == '-'
  {
    if text == "" then "" else text + "\n" + Underline(text)
  }

  /** The cases the tests check. */
  lemma UiExamples()
    ensures Underline("") == "" && Underline("a") == "-" && Underline("a bcd") == "-----"
    ensures Title("") == "" && Title("a") == "a\n-" && Title("a bcd") == "a bcd\n-----"
  {
    assert Underline("a bcd") == "-----";
  }
}
