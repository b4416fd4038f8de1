/** Splitting text at a mark and joining it again. */
module Text {

  function Split(s: string, mark: char): (parts: seq<string>)
    ensures parts != []
  {
    if s == [] then [""]
    else if s[0] == mark then [""] + Split(s[1..], mark)
    else
      var rest := Split(s[1..], mark);
      [[s[0]] + rest[0]] + rest[1..]
  }

  function Join(parts: seq<string>, mark: char): string
    requires parts != []
  {
    if |parts| == 1 then parts[0] else parts[0] + [mark] + Join(parts[1..], mark)
  }

  lemma JoinHead(c: char, parts: seq<string>, mark: char)
    requires parts != []
    ensures Join([[c] + parts[0]] + parts[1..], mark) == [c] + Join(parts, mark)
  {
    var longer := [[c] + parts[0]] + parts[1..];
    assert longer[1..] == parts[1..];
    if |parts| > 1 {
      var rest := [mark] + Join(parts[1..], mark);
      assert longer[0] + rest == [c] + (parts[0] + rest);
      assert longer[0] + [mark] + Join(parts[1..], mark) == longer[0] + rest;
      assert parts[0] + [mark] + Join(parts[1..], mark) == parts[0] + rest;
    }
  }

  lemma {:induction false} SplitJoins(s: string, mark: char)
    ensures Join(Split(s, mark), mark) == s
  {
    if s == [] {
    } else {
      SplitJoins(s[1..], mark);
      var rest := Split(s[1..], mark);
      if s[0] == mark {
        assert ([""] + rest)[1..] == rest;
      } else {
        JoinHead(s[0], rest, mark);
      }
    }
  }

  /** The first character goes to the first part, whatever parts follow. */
  lemma SplitHead(a: string, rest: seq<string>, more: seq<string>, mark: char)
    requires a != [] && rest != []
    ensures (rest + more)[0] == rest[0] && (rest + more)[1..] == rest[1..] + more
    ensures [""] + (rest + more) == ([""] + rest) + more
    ensures [[a[0]] + rest[0]] + (rest[1..] + more) == ([[a[0]] + rest[0]] + rest[1..]) + more
  {
  }

  lemma {:induction false} SplitConcat(a: string, b: string, mark: char)
    ensures Split(a + [mark] + b, mark) == Split(a, mark) + Split(b, mark)
  {
    var s := a + [mark] + b;
    if a == [] {
      assert s[1..] == b;
    } else {
      SplitConcat(a[1..], b, mark);
      assert s[1..] == a[1..] + [mark] + b;
      SplitHead(a, Split(a[1..], mark), Split(b, mark), mark);
    }
  }

  lemma {:induction false} SplitWithoutMark(s: string, mark: char)
    requires mark !in s
    ensures Split(s, mark) == [s]
  {
    if s == [] {
    } else {
      SplitWithoutMark(s[1..], mark);
      assert [s[0]] + s[1..] == s;
    }
  }

  lemma {:induction false} PartsLackMark(s: string, mark: char)
    ensures forall part :: part in Split(s, mark) ==> mark !in part && forall c :: c in part ==> c in s
  {
    if s == [] {
    } else {
      PartsLackMark(s[1..], mark);
      var rest := Split(s[1..], mark);
      assert rest[0] in rest;
      if s[0] != mark {
        assert forall part :: part in rest[1..] ==> part in rest;
      }
    }
  }

  /** Joining parts without the mark and splitting again gives the parts back. */
  lemma {:induction false} JoinSplits(parts: seq<string>, mark: char)
    requires parts != [] && forall part :: part in parts ==> mark !in part
    ensures Split(Join(parts, mark), mark) == parts
  {
    SplitWithoutMark(parts[0], mark);
    if |parts| > 1 {
      JoinSplits(parts[1..], mark);
      SplitConcat(parts[0], Join(parts[1..], mark), mark);
    } else {
      assert parts == [parts[0]];
    }
  }

  lemma {:induction false} JoinAppend(parts: seq<string>, part: string, mark: char)
    requires parts != []
    ensures Join(parts + [part], mark) == Join(parts, mark) + [mark] + part
  {
    assert (parts + [part])[1..] == parts[1..] + [part];
    if |parts| > 1 {
      JoinAppend(parts[1..], part, mark);
    }
  }

  lemma {:induction false} JoinChars(parts: seq<string>, mark: char, c: char)
    requires parts != [] && c in Join(parts, mark)
    ensures c == mark || exists part :: part in parts && c in part
  {
    if |parts| > 1 && c !in parts[0] && c != mark {
      JoinChars(parts[1..], mark, c);
      var part :| part in parts[1..] && c in part;
      assert part in parts;
    } else {
      assert parts[0] in parts;
    }
  }
}
