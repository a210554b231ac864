/** strings.Builder: a text that is only appended to. */
module Builders {

  class Builder {
    var text: string

    constructor ()
      ensures text == ""
    {
      text := "";
    }

    method WriteString(s: string)
      modifies this
      ensures text == old(text) + s
    {
      text := text + s;
    }
  }

  /** What a sequence of writes leaves. */
  function Concat(pieces: seq<string>): string {
    if pieces == [] then "" else Concat(pieces[..|pieces| - 1]) + pieces[|pieces| - 1]
  }

  lemma {:induction false} ConcatFromTheFront(pieces: seq<string>)
    requires pieces != []
    ensures Concat(pieces) == pieces[0] + Concat(pieces[1..])
  {
    if |pieces| == 1 {
      assert pieces[..0] == [];
    } else {
      var n := |pieces| - 1;
      ConcatFromTheFront(pieces[..n]);
      assert pieces[..n][1..] == pieces[1..][..n - 1];
      assert Concat(pieces[1..]) == Concat(pieces[1..][..n - 1]) + pieces[n];
    }
  }
}
