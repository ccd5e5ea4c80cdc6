/** Byte strings, as the C++ code handles them in std::string, and the few
    std::string and boost::split operations the other modules rest on. */
module Bytes {

  type byte = b: int | 0 <= b < 256

  type bytes = seq<byte>

  datatype Option<+T> = None | Some(value: T)

  lemma Associative<T>(a: seq<T>, b: seq<T>, c: seq<T>)
    ensures (a + b) + c == a + (b + c)
  {}

  /** The two parts of a concatenation. */
  lemma Parts<T>(a: seq<T>, b: seq<T>)
    ensures (a + b)[..|a|] == a && (a + b)[|a|..] == b
  {}

  lemma Suffix<T>(s: seq<T>, i: nat, j: nat)
    requires i + j <= |s|
    ensures s[i..][j..] == s[i + j..]
  {}

  lemma Slice<T>(s: seq<T>, i: nat, from: nat, to: nat)
    requires from <= to && i + to <= |s|
    ensures s[i..][from..to] == s[i + from..i + to]
  {}

  const NUL: byte := 0
  const LF: byte := 10
  const CR: byte := 13
  const SPACE: byte := ' ' as int
  const QUOTE: byte := '"' as int
  const PERCENT: byte := '%' as int
  const AMPERSAND: byte := '&' as int
  const PLUS: byte := '+' as int
  const MINUS: byte := '-' as int
  const DOT: byte := '.' as int
  const SLASH: byte := '/' as int
  const COLON: byte := ':' as int
  const SEMICOLON: byte := ';' as int
  const EQUALS: byte := '=' as int
  const QUESTION: byte := '?' as int
  const CRLF: bytes := [CR, LF]

  /** A literal of the source, as bytes. */
  function Ascii(s: string): (r: bytes)
    ensures |r| == |s|
  {
    seq(|s|, i requires 0 <= i < |s| => s[i] as int % 256)
  }

  /** std::string::find: the first b at or after position from. */
  function Find(s: bytes, b: byte, from: nat): (r: Option<nat>)
    ensures r.Some? ==> from <= r.value < |s| && s[r.value] == b
    ensures r.Some? ==> forall i :: from <= i < r.value ==> s[i] != b
    ensures r.None? ==> forall i :: from <= i < |s| ==> s[i] != b
    decreases |s| - from
  {
    if from >= |s| then None
    else if s[from] == b then Some(from)
    else Find(s, b, from + 1)
  }

  /** The last b in s. */
  function FindLast(s: bytes, b: byte): (r: Option<nat>)
    ensures r.Some? ==> r.value < |s| && s[r.value] == b
    ensures r.Some? ==> forall i :: r.value < i < |s| ==> s[i] != b
    ensures r.None? ==> b !in s
  {
    if s == [] then None
    else if s[|s| - 1] == b then Some(|s| - 1)
    else FindLast(s[..|s| - 1], b)
  }

  lemma FindLastIs(s: bytes, b: byte, k: nat)
    requires k < |s| && s[k] == b && forall i :: k < i < |s| ==> s[i] != b
    ensures FindLast(s, b) == Some(k)
  {
    hide FindLast;
  }

  /** Looking from behind, a part without b is passed by. */
  lemma {:induction false} FindLastInParts(s: bytes, t: bytes, b: byte)
    requires b !in t
    ensures FindLast(s + t, b) == FindLast(s, b)
  {
    if t == [] {
      assert s + t == s;
    } else {
      var init := t[..|t| - 1];
      assert (s + t)[..|s + t| - 1] == s + init;
      FindLastInParts(s, init, b);
    }
  }

  /** s cut at every b; the pieces between, possibly empty, at least one. */
  function Split(s: bytes, b: byte): (pieces: seq<bytes>)
    ensures |pieces| >= 1
    decreases |s|
  {
    match Find(s, b, 0)
    case None => [s]
    case Some(i) => [s[..i]] + Split(s[i + 1..], b)
  }

  lemma SplitByFind(s: bytes, b: byte)
    ensures Split(s, b) == match Find(s, b, 0)
                           case None => [s]
                           case Some(i) => [s[..i]] + Split(s[i + 1..], b)
  {
    hide Find;
  }

  lemma {:induction false} FindIs(s: bytes, b: byte, k: nat)
    requires k < |s| && s[k] == b && forall i :: 0 <= i < k ==> s[i] != b
    ensures Find(s, b, 0) == Some(k)
  {
    hide Find;
  }

  /** Finding in a concatenation: in its first part, or else in its second. */
  lemma FindInParts(s: bytes, t: bytes, b: byte)
    ensures Find(s + t, b, 0) == if b in s then Find(s, b, 0)
                                 else match Find(t, b, 0) case None => None case Some(i) => Some(|s| + i)
  {
    hide Find;
    var all := s + t;
    assert forall j :: 0 <= j < |s| ==> all[j] == s[j];
    assert forall j :: 0 <= j < |t| ==> all[|s| + j] == t[j];
    match Find(s, b, 0)
    case Some(i) => FindIs(all, b, i);
    case None =>
      match Find(t, b, 0) {
        case Some(i) => FindIs(all, b, |s| + i);
        case None =>
          assert forall j :: |s| <= j < |all| ==> all[j] == t[j - |s|];
      }
  }

  /** Cutting off a first piece that is free of the separator. */
  lemma SplitFirst(piece: bytes, b: byte, rest: bytes)
    requires b !in piece
    ensures Split(piece + [b] + rest, b) == [piece] + Split(rest, b)
  {
    hide Split, Find;
    var s := piece + [b] + rest;
    assert s[|piece|] == b;
    assert forall i :: 0 <= i < |piece| ==> s[i] == piece[i];
    FindIs(s, b, |piece|);
    Parts(piece + [b], rest);
    Parts(piece, [b] + rest);
    Associative(piece, [b], rest);
    SplitByFind(s, b);
  }

  /** Every separator-free string is its own only piece. */
  lemma SplitWhole(s: bytes, b: byte)
    requires b !in s
    ensures Split(s, b) == [s]
  {}

  /** Multimaps of the source, in the order their fields are visited. */
  type Fields = seq<(bytes, bytes)>

  /** The same fields, visited in any order. */
  ghost predicate SameFields(fields: Fields, others: Fields) { multiset(fields) == multiset(others) }

  lemma SameMembers(fields: Fields, others: Fields)
    requires SameFields(fields, others)
    ensures forall f :: f in fields <==> f in others
  {
    assert forall f :: f in fields <==> f in multiset(fields);
    assert forall f :: f in others <==> f in multiset(others);
  }

  /** The order in which the field at k comes first. */
  function ToFront(fields: Fields, k: nat): (r: Fields)
    requires k < |fields|
  {
    [fields[k]] + (fields[..k] + fields[k + 1..])
  }

  lemma ToFrontIsSame(fields: Fields, k: nat)
    requires k < |fields|
    ensures SameFields(ToFront(fields, k), fields)
  {
    assert fields == fields[..k] + ([fields[k]] + fields[k + 1..]);
  }

  /** tolower of the "C" locale. */
  function ToLower(b: byte): (r: byte)
  {
    if 'A' as int <= b <= 'Z' as int then b + 32 else b
  }

  predicate CaseInsensitiveEqual(s: bytes, t: bytes)
  {
    |s| == |t| && forall i :: 0 <= i < |s| ==> ToLower(s[i]) == ToLower(t[i])
  }

  /** multimap::find: a field with the given name, the first in visiting order. */
  function FindField(fields: Fields, name: bytes): (r: Option<bytes>)
    ensures r.Some? ==> exists i :: 0 <= i < |fields| && CaseInsensitiveEqual(fields[i].0, name)
                                    && fields[i].1 == r.value
    ensures r.None? ==> forall i :: 0 <= i < |fields| ==> !CaseInsensitiveEqual(fields[i].0, name)
  {
    if fields == [] then None
    else if CaseInsensitiveEqual(fields[0].0, name) then Some(fields[0].1)
    else FindField(fields[1..], name)
  }

  /** The two cases of one letter. */
  predicate SameLetter(a: byte, b: byte)
  {
    (65 <= a <= 90 && b == a + 32) || (65 <= b <= 90 && a == b + 32)
  }

  /** Equal but for the case of letters, and nothing else. */
  lemma CaseInsensitiveEqualIff(s: bytes, t: bytes)
    ensures CaseInsensitiveEqual(s, t)
       <==> |s| == |t| && forall i :: 0 <= i < |s| ==> s[i] == t[i] || SameLetter(s[i], t[i])
  {}
}
