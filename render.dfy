/** The textual form of a set produced by cset_toString (cset.h:177-183). */
module Render {

  /** The element texts separated by ", ", defined from the front. */
  function Join<T>(f: T -> string, s: seq<T>): string
    decreases |s|
  {
    if |s| == 0 then ""
    else if |s| == 1 then f(s[0])
    else f(s[0]) + ", " + Join(f, s[1..])
  }

  /** `{elem1, elem2, ..., elemN}` with the elements in slot order. */
  function SetText<T>(f: T -> string, s: seq<T>): string {
    "{" + Join(f, s) + "}"
  }

  /** Appending one element at the back adds a separator and its text. */
  lemma {:induction false} JoinSnoc<T>(f: T -> string, s: seq<T>, y: T)
    requires |s| > 0
    ensures Join(f, s + [y]) == Join(f, s) + ", " + f(y)
    decreases |s|
  {
    if |s| == 1 {
      assert (s + [y])[1..] == [y];
    } else {
      assert (s + [y])[1..] == s[1..] + [y];
      JoinSnoc(f, s[1..], y);
    }
  }

  /** The empty set prints as "{}" and a singleton as its element's text in braces. */
  lemma SetTextSmall<T>(f: T -> string, x: T)
    ensures SetText(f, []) == "{}"
    ensures SetText(f, [x]) == "{" + f(x) + "}"
  {
  }
}
