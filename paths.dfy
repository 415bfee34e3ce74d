/**
 * What `pathlib.Path(s).name` and `Path(s).parent.name` give for a POSIX
 * path: the text is split on `/`, empty parts and `.` parts are dropped, and
 * the last and second-to-last remaining parts are the two names (empty when
 * there is no such part).
 */
module Paths {
  import opened Bytes

  /** The pieces between the `/` bytes of `s`; there is always at least one. */
  function Split(s: seq<byte>): (pieces: seq<seq<byte>>)
    ensures |pieces| >= 1
    ensures forall i :: 0 <= i < |pieces| ==> Slash !in pieces[i]
  {
    if s == [] then [[]]
    else
      var rest := Split(s[1..]);
      if s[0] == Slash then [[]] + rest
      else [[s[0]] + rest[0]] + rest[1..]
  }

  /** A part pathlib keeps: not empty and not `.`. */
  predicate IsPart(p: seq<byte>)
  {
    p != [] && p != [Dot]
  }

  /** A file or directory name that survives a round through a path: a kept
      part with no `/` in it. */
  predicate IsFileName(n: seq<byte>)
  {
    IsPart(n) && Slash !in n
  }

  function KeepParts(pieces: seq<seq<byte>>): (parts: seq<seq<byte>>)
    ensures forall i :: 0 <= i < |parts| ==> IsPart(parts[i]) && parts[i] in pieces
  {
    if pieces == [] then []
    else (if IsPart(pieces[0]) then [pieces[0]] else []) + KeepParts(pieces[1..])
  }

  /** The parts of the path, as pathlib keeps them. */
  function Parts(s: seq<byte>): (parts: seq<seq<byte>>)
    ensures forall i :: 0 <= i < |parts| ==> IsFileName(parts[i])
  {
    KeepParts(Split(s))
  }

  /** `Path(s).name`: a file name, or empty exactly when the path has no
      parts. */
  function Name(s: seq<byte>): (n: seq<byte>)
    ensures n == [] <==> Parts(s) == []
    ensures n != [] ==> IsFileName(n)
  {
    var parts := Parts(s);
    if |parts| == 0 then [] else parts[|parts| - 1]
  }

  /** `Path(s).parent.name`: a file name, or empty exactly when the path
      has fewer than two parts; a path with a parent name has a name too. */
  function ParentName(s: seq<byte>): (p: seq<byte>)
    ensures p == [] <==> |Parts(s)| < 2
    ensures p != [] ==> IsFileName(p) && Name(s) != []
  {
    var parts := Parts(s);
    if |parts| < 2 then [] else parts[|parts| - 2]
  }

  /** Splitting at a `/` splits the pieces the same way. */
  lemma {:induction false} SplitAround(a: seq<byte>, b: seq<byte>)
    ensures Split(a + [Slash] + b) == Split(a) + Split(b)
  {
    if a == [] {
      assert a + [Slash] + b == [Slash] + b;
      assert ([Slash] + b)[1..] == b;
    } else {
      assert (a + [Slash] + b)[1..] == a[1..] + [Slash] + b;
      SplitAround(a[1..], b);
    }
  }

  /** Text with no `/` is one piece. */
  lemma {:induction false} SplitWhole(n: seq<byte>)
    requires Slash !in n
    ensures Split(n) == [n]
  {
    if n != [] {
      SplitWhole(n[1..]);
      assert [n[0]] + n[1..] == n;
    }
  }

  lemma {:induction false} KeepPartsAppend(p: seq<seq<byte>>, q: seq<seq<byte>>)
    ensures KeepParts(p + q) == KeepParts(p) + KeepParts(q)
  {
    if p == [] {
      assert p + q == q;
    } else {
      assert (p + q)[1..] == p[1..] + q;
      KeepPartsAppend(p[1..], q);
    }
  }

  /** Appending `/n` to any path makes `n` its last part and its name. */
  lemma NameOfJoin(prefix: seq<byte>, n: seq<byte>)
    requires IsFileName(n)
    ensures Parts(prefix + [Slash] + n) == Parts(prefix) + [n]
    ensures Name(prefix + [Slash] + n) == n
  {
    SplitAround(prefix, n);
    SplitWhole(n);
    KeepPartsAppend(Split(prefix), [n]);
    assert KeepParts([n]) == [n] by {
      assert [n][1..] == [];
    }
  }

  /** A trailing `/` changes no part of a path. */
  lemma PartsTrailingSlash(s: seq<byte>)
    ensures Parts(s + [Slash]) == Parts(s)
  {
    var empty: seq<byte> := [];
    assert s + [Slash] == s + [Slash] + empty;
    SplitAround(s, empty);
    KeepPartsAppend(Split(s), Split(empty));
    assert KeepParts(Split(empty)) == [] by {
      assert Split(empty) == [empty];
      assert [empty][1..] == [];
    }
  }

  /** Appending `/d/n` to any path makes `d` the parent's name and `n` the
      name, whatever came before. */
  lemma NamesOfJoin(prefix: seq<byte>, d: seq<byte>, n: seq<byte>)
    requires IsFileName(d) && IsFileName(n)
    ensures Parts(prefix + [Slash] + d + [Slash] + n) == Parts(prefix) + [d, n]
    ensures ParentName(prefix + [Slash] + d + [Slash] + n) == d
    ensures Name(prefix + [Slash] + d + [Slash] + n) == n
  {
    var path := prefix + [Slash] + d + [Slash] + n;
    assert path == prefix + [Slash] + (d + [Slash] + n);
    SplitAround(prefix, d + [Slash] + n);
    SplitAround(d, n);
    SplitWhole(d);
    SplitWhole(n);
    KeepPartsAppend(Split(prefix), [d, n]);
    assert KeepParts([d, n]) == [d, n] by {
      assert [d, n][1..] == [n];
      assert KeepParts([n]) == [n] by {
        assert [n][1..] == [];
      }
    }
  }
}
