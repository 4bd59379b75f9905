/** Byte strings, the characters the client gives a meaning to, and cutting a sequence at a separator. */
module Bytes {

  newtype byte = b: int | 0 <= b < 256

  type ByteString = seq<byte>

  const NUL: byte := 0
  const TAB: byte := 9
  const LF: byte := 10
  const CR: byte := 13
  const SPACE: byte := 32
  const COLON: byte := 58
  const SEMICOLON: byte := 59

  const CRLF: ByteString := [CR, LF]

  /** The bytes of ASCII text. */
  function Text(s: string): (t: ByteString)
    ensures |t| == |s|
  {
    seq(|s|, i requires 0 <= i < |s| => (s[i] as int % 256) as byte)
  }

  /** A row of digits 0. */
  function Zeros(n: nat): ByteString {
    seq(n, i => 48 as byte)
  }

  datatype Option<+T> = None | Some(value: T) {
    function GetOr(default: T): T {
      if Some? then value else default
    }
  }

  /** The index of the first x in s, or |s| when there is none. */
  function IndexOf<T(==)>(s: seq<T>, x: T): (i: nat)
    ensures i <= |s|
    ensures x !in s[..i]
    ensures i < |s| ==> s[i] == x
  {
    if s == [] || s[0] == x then 0
    else
      var i := IndexOf(s[1..], x) + 1;
      assert s[..i] == [s[0]] + s[1..][..i - 1];
      i
  }

  lemma {:induction false} NotBefore<T>(s: seq<T>, x: T, n: nat)
    requires n <= |s| && x !in s[..n]
    ensures IndexOf(s, x) >= n
  {
    if n > 0 {
      assert s[0] == s[..n][0] && s[1..][..n - 1] == s[..n][1..];
      NotBefore(s[1..], x, n - 1);
    }
  }

  lemma {:induction false} FirstIndex<T>(s: seq<T>, x: T, at: nat)
    requires at < |s| && s[at] == x && x !in s[..at]
    ensures IndexOf(s, x) == at
  {
    if at > 0 {
      assert s[0] == s[..at][0] && s[1..][..at - 1] == s[..at][1..];
      FirstIndex(s[1..], x, at - 1);
    }
  }

  /** What a reader of a C string sees of s: everything before the first NUL. */
  function CStr(s: ByteString): ByteString {
    s[..IndexOf(s, NUL)]
  }

  predicate EndsWith<T(==)>(s: seq<T>, x: T) {
    s != [] && s[|s| - 1] == x
  }

  /** s without its last element. */
  function Init<T>(s: seq<T>): seq<T>
    requires s != []
  {
    s[..|s| - 1]
  }

  function Last<T>(s: seq<T>): T
    requires s != []
  {
    s[|s| - 1]
  }

  lemma InitLast<T>(s: seq<T>, x: T)
    ensures Init(s + [x]) == s && Last(s + [x]) == x
  {
  }

  predicate Distinct<T(==)>(s: seq<T>) {
    forall i, j :: 0 <= i < j < |s| ==> s[i] != s[j]
  }

  function Flatten<T>(ss: seq<seq<T>>): seq<T> {
    if ss == [] then [] else Flatten(Init(ss)) + Last(ss)
  }

  lemma {:induction false} FlattenAppend<T>(a: seq<seq<T>>, b: seq<seq<T>>)
    ensures Flatten(a + b) == Flatten(a) + Flatten(b)
  {
    if b == [] {
      assert a + b == a;
    } else {
      FlattenAppend(a, Init(b));
      assert Init(a + b) == a + Init(b) && Last(a + b) == Last(b);
      assert (Flatten(a) + Flatten(Init(b))) + Last(b) == Flatten(a) + (Flatten(Init(b)) + Last(b));
    }
  }

  lemma FlattenOne<T>(s: seq<T>)
    ensures Flatten([s]) == s
  {
  }

  // ---------- cutting at a separator ----------

  /** Every piece followed by one sep. */
  function Unsplit<T>(pieces: seq<seq<T>>, sep: T): seq<T> {
    if pieces == [] then [] else Unsplit(Init(pieces), sep) + Last(pieces) + [sep]
  }

  /** s cut at every sep: the pieces a sep ended, and what follows the last sep. */
  function Split<T(==)>(s: seq<T>, sep: T): (r: (seq<seq<T>>, seq<T>))
    ensures Unsplit(r.0, sep) + r.1 == s
    ensures forall piece :: piece in r.0 ==> sep !in piece
    ensures sep !in r.1
  {
    if s == [] then ([], [])
    else
      var (pieces, rest) := Split(Init(s), sep);
      if Last(s) == sep then
        InitLast(pieces, rest);
        (pieces + [rest], [])
      else (pieces, rest + [Last(s)])
  }

  /** Split is the only way to cut s into separator-free pieces. */
  lemma {:induction false} SplitUnsplit<T>(pieces: seq<seq<T>>, rest: seq<T>, sep: T)
    requires forall piece :: piece in pieces ==> sep !in piece
    requires sep !in rest
    ensures Split(Unsplit(pieces, sep) + rest, sep) == (pieces, rest)
    decreases |pieces|, |rest|
  {
    var s := Unsplit(pieces, sep) + rest;
    if rest != [] {
      SplitUnsplit(pieces, Init(rest), sep);
      assert Init(s) == Unsplit(pieces, sep) + Init(rest);
      assert rest == Init(rest) + [Last(rest)];
    } else if pieces != [] {
      SplitUnsplit(Init(pieces), Last(pieces), sep);
      assert Init(s) == Unsplit(Init(pieces), sep) + Last(pieces);
      assert pieces == Init(pieces) + [Last(pieces)];
    }
  }

  /** Reading on only adds pieces behind the ones already cut off. */
  lemma {:induction false} SplitPrefix<T>(a: seq<T>, b: seq<T>, sep: T)
    ensures Split(a, sep).0 <= Split(a + b, sep).0
  {
    if b == [] {
      assert a + b == a;
    } else {
      assert Init(a + b) == a + Init(b);
      SplitPrefix(a, Init(b), sep);
    }
  }

  lemma {:induction false} UnsplitAppend<T>(a: seq<seq<T>>, b: seq<seq<T>>, sep: T)
    ensures Unsplit(a + b, sep) == Unsplit(a, sep) + Unsplit(b, sep)
  {
    if b == [] {
      assert a + b == a;
    } else {
      UnsplitAppend(a, Init(b), sep);
      assert Init(a + b) == a + Init(b) && Last(a + b) == Last(b);
      var x, y := Unsplit(a, sep), Unsplit(Init(b), sep);
      assert x + y + Last(b) + [sep] == x + (y + Last(b) + [sep]);
    }
  }

  lemma AppendAssociates<T>(a: seq<T>, b: seq<T>, c: seq<T>)
    ensures (a + b) + c == a + (b + c)
  {
  }

  lemma UnsplitOne<T>(piece: seq<T>, sep: T)
    ensures Unsplit([piece], sep) == piece + [sep]
  {
  }

  lemma UnsplitPair<T>(a: seq<T>, b: seq<T>, sep: T)
    ensures Unsplit([a, b], sep) == (a + [sep]) + (b + [sep])
  {
    UnsplitOne(a, sep);
    assert Init([a, b]) == [a] && Last([a, b]) == b;
    AppendAssociates(a + [sep], b, [sep]);
  }

  /** The first piece, and the cut of what follows its sep. */
  lemma SplitFirst<T>(s: seq<T>, sep: T)
    requires IndexOf(s, sep) < |s|
    ensures var i := IndexOf(s, sep);
            var (pieces, rest) := Split(s[i + 1..], sep);
            Split(s, sep) == ([s[..i]] + pieces, rest)
  {
    hide *;
    var i := IndexOf(s, sep);
    var piece, after := s[..i], s[i + 1..];
    var (pieces, rest) := Split(after, sep);
    assert Unsplit([piece] + pieces, sep) + rest == s by {
      UnsplitOne(piece, sep);
      UnsplitAppend([piece], pieces, sep);
      Regroup(s, i, Unsplit(pieces, sep), rest);
    }
    SplitUnsplit([piece] + pieces, rest, sep);
  }

  lemma Regroup<T>(s: seq<T>, i: nat, b: seq<T>, c: seq<T>)
    requires i < |s| && b + c == s[i + 1..]
    ensures s == ((s[..i] + [s[i]]) + b) + c
  {
  }

  lemma SplitNone<T>(s: seq<T>, sep: T)
    requires IndexOf(s, sep) == |s|
    ensures Split(s, sep) == ([], s)
  {
    hide Split, IndexOf;
    assert s[..|s|] == s;
    assert Unsplit([], sep) + s == s;
    SplitUnsplit([], s, sep);
  }
}
