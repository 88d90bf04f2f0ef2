/**
 * The file-name helper `fn_base` of BOM.py: the part of a file name before
 * its last dot, which becomes the name of an assembly.  Python computes it
 * as `'.'.join(name.split('.')[:-1])`; `Split` and `Join` below are those
 * two string methods.
 */
module FileNames {

  const Dot: char := '.'

  /** Python's `s.split(sep)`: the separator-free pieces between separators, never none. */
  function Split(s: string, sep: char): (pieces: seq<string>)
    ensures |pieces| >= 1
    ensures forall i :: 0 <= i < |pieces| ==> sep !in pieces[i]
    ensures |pieces| == 1 <==> sep !in s
  {
    if s == [] then [""]
    else
      var rest := Split(s[1..], sep);
      if s[0] == sep then [""] + rest
      else [[s[0]] + rest[0]] + rest[1..]
  }

  /** Python's `sep.join(pieces)`. */
  function Join(pieces: seq<string>, sep: char): string
  {
    if pieces == [] then ""
    else if |pieces| == 1 then pieces[0]
    else pieces[0] + [sep] + Join(pieces[1..], sep)
  }

  /** Joining a piece in front of at least one more puts a separator between them. */
  lemma JoinCons(first: string, rest: seq<string>, sep: char)
    requires |rest| >= 1
    ensures Join([first] + rest, sep) == first + [sep] + Join(rest, sep)
  {
    assert ([first] + rest)[1..] == rest;
  }

  /** The join of the pieces one character more gives: a new empty piece, or the first piece extended. */
  lemma JoinStep(c: char, rest: seq<string>, sep: char)
    requires |rest| >= 1
    ensures Join(if c == sep then [""] + rest else [[c] + rest[0]] + rest[1..], sep) == [c] + Join(rest, sep)
  {
    if c == sep {
      JoinCons("", rest, sep);
    } else if |rest| > 1 {
      assert rest == [rest[0]] + rest[1..];
      JoinCons([c] + rest[0], rest[1..], sep);
      JoinCons(rest[0], rest[1..], sep);
    }
  }

  /** Joining the pieces of a split gives the string back. */
  lemma {:induction false} JoinSplit(s: string, sep: char)
    ensures Join(Split(s, sep), sep) == s
  {
    if s != [] {
      JoinSplit(s[1..], sep);
      JoinStep(s[0], Split(s[1..], sep), sep);
      assert s == [s[0]] + s[1..];
    }
  }

  /** Joining with one more piece puts a separator and that piece at the end. */
  lemma {:induction false} JoinSnoc(pieces: seq<string>, last: string, sep: char)
    requires |pieces| >= 1
    ensures Join(pieces + [last], sep) == Join(pieces, sep) + [sep] + last
  {
    if |pieces| > 1 {
      assert (pieces + [last])[1..] == pieces[1..] + [last];
      JoinSnoc(pieces[1..], last, sep);
    }
  }

  /** A string is the join of pieces that contain no separator exactly when those are its split. */
  lemma {:induction false} SplitOfJoin(pieces: seq<string>, sep: char)
    requires |pieces| >= 1
    requires forall i :: 0 <= i < |pieces| ==> sep !in pieces[i]
    ensures Split(Join(pieces, sep), sep) == pieces
    decreases |pieces|, |pieces[0]|
  {
    var s := Join(pieces, sep);
    if pieces[0] == [] {
      if |pieces| > 1 {
        assert s == [sep] + Join(pieces[1..], sep);
        assert s[1..] == Join(pieces[1..], sep);
        SplitOfJoin(pieces[1..], sep);
        assert pieces == [""] + pieces[1..];
      }
    } else {
      var c := pieces[0][0];
      var shorter := [pieces[0][1..]] + pieces[1..];
      assert shorter[1..] == pieces[1..];
      assert forall i :: 0 <= i < |shorter| ==> sep !in shorter[i] by {
        assert forall i :: 1 <= i < |shorter| ==> shorter[i] == pieces[i];
        assert forall x :: x in pieces[0][1..] ==> x in pieces[0];
      }
      assert pieces[0] == [c] + pieces[0][1..];
      assert s == [c] + Join(shorter, sep);
      assert s[1..] == Join(shorter, sep);
      SplitOfJoin(shorter, sep);
      assert c != sep by { assert c in pieces[0]; }
      assert pieces == [[c] + shorter[0]] + shorter[1..];
    }
  }

  /**
   * `fn_base`: drop the last dot and everything after it.  A name with a dot
   * is the result, a dot and a dot-free extension; a name without a dot
   * gives the empty string.  `Foo_12.34.xlsx` gives `Foo_12.34`.
   */
  function FnBase(name: string): (base: string)
    ensures Dot !in name ==> base == ""
    ensures Dot in name ==>
      |base| < |name| && name == base + [Dot] + name[|base| + 1..] && Dot !in name[|base| + 1..]
  {
    var pieces := Split(name, Dot);
    var n := |pieces|;
    var (front, ext) := (pieces[..n - 1], pieces[n - 1]);
    JoinSplit(name, Dot);
    if n >= 2 then
      assert pieces == front + [ext];
      JoinSnoc(front, ext, Dot);
      assert name == Join(front, Dot) + [Dot] + ext;
      assert name[|Join(front, Dot)| + 1..] == ext;
      Join(front, Dot)
    else
      Join(front, Dot)
  }

  /** The result of `fn_base` is the only prefix that a dot and a dot-free extension complete. */
  lemma FnBaseUnique(name: string, base: string, ext: string)
    requires name == base + [Dot] + ext && Dot !in ext
    ensures FnBase(name) == base
  {
    assert name[|base|] == Dot;
    assert Dot in name;
    var b := FnBase(name);
    var e := name[|b| + 1..];
    assert name == b + [Dot] + e && Dot !in e;
    assert forall i :: |base| < i < |name| ==> name[i] != Dot by {
      assert forall i :: |base| < i < |name| ==> name[i] == ext[i - |base| - 1];
    }
    assert forall i :: |b| < i < |name| ==> name[i] != Dot by {
      assert forall i :: |b| < i < |name| ==> name[i] == e[i - |b| - 1];
    }
    assert name[|b|] == Dot;
    assert b == name[..|b|] == name[..|base|] == base;
  }

  /** The example of the docstring, BOM.py line 55. */
  lemma FnBaseExample()
    ensures FnBase("Foo_12.34.xlsx") == "Foo_12.34"
  {
    assert "Foo_12.34.xlsx" == "Foo_12.34" + [Dot] + "xlsx";
    FnBaseUnique("Foo_12.34.xlsx", "Foo_12.34", "xlsx");
  }

  /** `fn_base` applied to a list: each name in turn. */
  function FnBaseList(names: seq<string>): (bases: seq<string>)
    ensures |bases| == |names|
    ensures forall i :: 0 <= i < |names| ==> bases[i] == FnBase(names[i])
  {
    if names == [] then [] else [FnBase(names[0])] + FnBaseList(names[1..])
  }
}
