/**
  Texts as lines: what both INI libraries write between lines, and read back.
 */
module Lines {
  predicate IsNewLine(endl: string) {
    endl == "\n" || endl == "\r\n"
  }

  /** Lines with a line end between them. */
  function Join(lines: seq<string>, endl: string := "\n"): string
    decreases |lines|
  {
    if lines == [] then "" else if |lines| == 1 then lines[0] else lines[0] + endl + Join(lines[1..], endl)
  }

  lemma {:induction false} JoinConcat(a: seq<string>, b: seq<string>, endl: string := "\n")
    requires a != [] && b != []
    ensures Join(a + b, endl) == Join(a, endl) + endl + Join(b, endl)
    decreases |a|
  {
    if |a| == 1 {
      assert (a + b)[1..] == b;
    } else {
      assert (a + b)[1..] == a[1..] + b;
      JoinConcat(a[1..], b, endl);
      var first, rest := a[0] + endl, Join(a[1..], endl);
      Regroup(first, rest + endl, Join(b, endl));
      Regroup(first, rest, endl);
    }
  }

  lemma JoinOne(line: string, endl: string := "\n")
    ensures Join([line], endl) == line
  {
  }

  lemma Regroup<T>(a: seq<T>, b: seq<T>, c: seq<T>)
    ensures a + (b + c) == a + b + c
  {
  }

  lemma Regroup3<T>(a: seq<T>, b: seq<T>, c: seq<T>, d: seq<T>)
    ensures a + b + c + d == a + (b + c + d)
  {
    Regroup(a, b, c);
    Regroup(a, b + c, d);
  }
}
