/** Searching a text for a separator, splitting it there and joining the pieces again. Texts are sequences
    of any element type: the wire format and the secrets file split strings at line feeds, the Telegram
    preview splits code units. Splitting and joining undo each other as long as no piece holds the
    separator. */
module Lines {
  import opened Options

  /** The first position of an element. */
  function IndexOf<T(==)>(s: seq<T>, x: T): (at: Option<nat>)
    ensures at.Some? ==> at.value < |s| && s[at.value] == x && x !in s[..at.value]
    ensures at.None? ==> x !in s
  {
    if s == [] then None
    else if s[0] == x then Some(0)
    else
      var rest := IndexOf(s[1..], x);
      if rest.None? then None else Some(rest.value + 1)
  }

  lemma IndexAfter<T>(before: seq<T>, x: T, rest: seq<T>)
    requires x !in before
    ensures IndexOf(before + [x] + rest, x) == Some(|before|)
  {
    var s := before + [x] + rest;
    assert s[|before|] == x;
    assert forall i :: 0 <= i < |before| ==> s[i] == before[i];
  }

  function Split<T(==)>(s: seq<T>, sep: T): (lines: seq<seq<T>>)
    ensures |lines| >= 1
  {
    if s == [] then [[]]
    else
      var rest := Split(s[1..], sep);
      if s[0] == sep then [[]] + rest else [[s[0]] + rest[0]] + rest[1..]
  }

  function Join<T>(lines: seq<seq<T>>, sep: T): seq<T> {
    if lines == [] then []
    else if |lines| == 1 then lines[0]
    else lines[0] + [sep] + Join(lines[1..], sep)
  }

  ghost predicate NoneHas<T>(lines: seq<seq<T>>, sep: T) {
    forall i :: 0 <= i < |lines| ==> sep !in lines[i]
  }

  lemma {:induction false} SplitHasNone<T>(s: seq<T>, sep: T)
    ensures NoneHas(Split(s, sep), sep)
  {
    if s != [] {
      SplitHasNone(s[1..], sep);
    }
  }

  lemma {:induction false} JoinSplit<T>(s: seq<T>, sep: T)
    ensures Join(Split(s, sep), sep) == s
  {
    if s != [] {
      var rest := Split(s[1..], sep);
      JoinSplit(s[1..], sep);
      var lines := Split(s, sep);
      if s[0] == sep {
        assert lines[1..] == rest;
      } else if |rest| == 1 {
        assert lines == [[s[0]] + rest[0]];
      } else {
        assert lines[1..] == rest[1..];
        assert [s[0]] + (rest[0] + [sep] + Join(rest[1..], sep)) == ([s[0]] + rest[0]) + [sep] + Join(rest[1..], sep);
      }
    }
  }

  lemma {:induction false} SplitPiece<T>(piece: seq<T>, rest: seq<T>, sep: T)
    requires sep !in piece
    ensures Split(piece + [sep] + rest, sep) == [piece] + Split(rest, sep)
  {
    var s := piece + [sep] + rest;
    if piece == [] {
      assert s[0] == sep && s[1..] == rest;
    } else {
      assert s[1..] == piece[1..] + [sep] + rest;
      SplitPiece(piece[1..], rest, sep);
      assert s[0] == piece[0];
      assert Split(s[1..], sep)[1..] == Split(rest, sep);
      assert [piece[0]] + piece[1..] == piece;
    }
  }

  /** A text that ends every line with the separator splits into its lines and an empty rest. */
  lemma {:induction false} SplitJoined<T>(lines: seq<seq<T>>, sep: T)
    requires lines != [] && NoneHas(lines, sep)
    ensures Split(Join(lines, sep) + [sep], sep) == lines + [[]]
  {
    if |lines| == 1 {
      SplitPiece(lines[0], [], sep);
      assert lines[0] + [sep] + [] == Join(lines, sep) + [sep];
      assert [lines[0]] + [[]] == lines + [[]];
    } else {
      SplitJoined(lines[1..], sep);
      SplitPiece(lines[0], Join(lines[1..], sep) + [sep], sep);
      assert lines[0] + [sep] + (Join(lines[1..], sep) + [sep]) == Join(lines, sep) + [sep];
      assert [lines[0]] + (lines[1..] + [[]]) == lines + [[]];
    }
  }

  /** Lines without the separator survive being joined and split. */
  lemma {:induction false} SplitJoin<T>(lines: seq<seq<T>>, sep: T)
    requires lines != [] && NoneHas(lines, sep)
    ensures Split(Join(lines, sep), sep) == lines
  {
    if |lines| == 1 {
      SplitNone(lines[0], sep);
    } else {
      SplitJoin(lines[1..], sep);
      SplitPiece(lines[0], Join(lines[1..], sep), sep);
      assert [lines[0]] + lines[1..] == lines;
    }
  }

  lemma {:induction false} SplitNone<T>(s: seq<T>, sep: T)
    requires sep !in s
    ensures Split(s, sep) == [s]
  {
    if s != [] {
      SplitNone(s[1..], sep);
      assert [s[0]] + s[1..] == s;
    }
  }

  /** There is one line more than separators. */
  lemma {:induction false} SplitCount<T>(s: seq<T>, sep: T)
    ensures |Split(s, sep)| == multiset(s)[sep] + 1
  {
    if s != [] {
      assert s == [s[0]] + s[1..];
      SplitCount(s[1..], sep);
    }
  }

  /** The first lines, joined, are a prefix; the whole text exactly when no line is left out. */
  lemma {:induction false} FirstLinesArePrefix<T>(lines: seq<seq<T>>, sep: T, count: nat)
    requires 1 <= count <= |lines|
    ensures Join(lines[..count], sep) <= Join(lines, sep)
    ensures Join(lines[..count], sep) == Join(lines, sep) <==> count == |lines|
    ensures count < |lines| ==> Join(lines[..count], sep) + [sep] <= Join(lines, sep)
  {
    if count == |lines| {
      assert lines[..count] == lines;
    } else if count == 1 {
      assert lines[..1] == [lines[0]];
      assert |Join(lines, sep)| > |lines[0]|;
    } else {
      assert lines[..count][1..] == lines[1..][..count - 1];
      FirstLinesArePrefix(lines[1..], sep, count - 1);
      var short, long := Join(lines[1..][..count - 1], sep), Join(lines[1..], sep);
      assert lines[0] + [sep] + short <= lines[0] + [sep] + long;
      assert |short| < |long|;
    }
  }
}
