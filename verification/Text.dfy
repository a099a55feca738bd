/** Joining pieces of text with a separator. */
module Text {

  function Join(parts: seq<string>, separator: string): string {
    if |parts| == 0 then ""
    else if |parts| == 1 then parts[0]
    else parts[0] + separator + Join(parts[1..], separator)
  }

  /** The parts, each preceded by the separator. */
  function Tail(parts: seq<string>, separator: string): string {
    if parts == [] then "" else separator + (parts[0] + Tail(parts[1..], separator))
  }

  lemma {:induction false} JoinHead(parts: seq<string>, separator: string)
    requires parts != []
    ensures Join(parts, separator) == parts[0] + Tail(parts[1..], separator)
  {
    if |parts| == 1 {
      assert parts[0] + "" == parts[0];
    } else {
      JoinHead(parts[1..], separator);
      var rest := Join(parts[1..], separator);
      assert parts[0] + separator + rest == parts[0] + (separator + rest);
    }
  }

  lemma JoinMore(first: string, others: seq<string>, separator: string)
    requires others != []
    ensures Join([first] + others, separator) == first + (separator + Join(others, separator))
  {
    var parts := [first] + others;
    assert parts[1..] == others;
    var rest := Join(others, separator);
    assert first + separator + rest == first + (separator + rest);
  }
}
