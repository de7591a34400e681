/** 9P Twalk messages: the wire format of walk(5) and the path splitter in front of it. */
module WalkMessages {
  import opened Wrappers

  type Byte = n: nat | n < 256

  const SLASH: Byte := 47
  const TWALK: Byte := 110

  // ----- numbers and strings on the wire ---------------------------------------------------

  function U16(v: nat): (b: seq<Byte>)
    ensures |b| == 2
  {
    [v % 256, v / 0x100 % 256]
  }

  function U32(v: nat): (b: seq<Byte>)
    ensures |b| == 4
  {
    [v % 256, v / 0x100 % 256, v / 0x1_0000 % 256, v / 0x100_0000 % 256]
  }

  function GetU16(b: seq<Byte>): nat
    requires |b| >= 2
  {
    b[0] as nat + 0x100 * (b[1] as nat)
  }

  function GetU32(b: seq<Byte>): nat
    requires |b| >= 4
  {
    b[0] as nat + 0x100 * (b[1] as nat) + 0x1_0000 * (b[2] as nat) + 0x100_0000 * (b[3] as nat)
  }

  lemma U16RoundTrip(v: nat)
    requires v < 0x1_0000
    ensures GetU16(U16(v)) == v
  {
  }

  lemma U32RoundTrip(v: nat)
    requires v < 0x1_0000_0000
    ensures GetU32(U32(v)) == v
  {
    var a, b, c := v / 0x100, v / 0x1_0000, v / 0x100_0000;
    NextByte(v);
    assert v == v % 256 + 0x100 * (a % 256) + 0x1_0000 * (b % 256) + 0x100_0000 * c;
    assert c % 256 == c;
  }

  lemma NextByte(v: nat)
    ensures v == 0x100 * (v / 0x100) + v % 256
    ensures v / 0x100 == 0x100 * (v / 0x1_0000) + v / 0x100 % 256
    ensures v / 0x1_0000 == 0x100 * (v / 0x100_0000) + v / 0x1_0000 % 256
  {
  }

  /** A counted string; the count is 16 bits wide. */
  function PutString(s: seq<Byte>): seq<Byte> { U16(|s| % 0x1_0000) + s }

  function PutStrings(names: seq<seq<Byte>>): seq<Byte> {
    if names == [] then [] else PutString(names[0]) + PutStrings(names[1..])
  }

  /** A walk request as a server reads it. */
  datatype Walk = Walk(tag: nat, fid: nat, newfid: nat, names: seq<seq<Byte>>)

  /** Everything after the size field: type, tag, fid, newfid, nwname, names. */
  function Body(w: Walk): seq<Byte> {
    [TWALK] + U16(w.tag) + U32(w.fid) + U32(w.newfid) + U16(|w.names|) + PutStrings(w.names)
  }

  /** The message: its total size, then its body. */
  function Encode(w: Walk): seq<Byte> { U32(4 + |Body(w)|) + Body(w) }

  // ----- the grammar of walk(5) ------------------------------------------------------------

  /** `n` counted strings that take up all of `b`. */
  function GetStrings(b: seq<Byte>, n: nat): Option<seq<seq<Byte>>>
    decreases n
  {
    if n == 0 then (if b == [] then Some([]) else None)
    else if |b| < 2 || |b| < 2 + GetU16(b) then None
    else
      match GetStrings(b[2 + GetU16(b)..], n - 1)
      case None => None
      case Some(rest) => Some([b[2..2 + GetU16(b)]] + rest)
  }

  /** size[4] Twalk tag[2] fid[4] newfid[4] nwname[2] nwname*(wname[s]) */
  function Decode(b: seq<Byte>): Option<Walk> {
    if |b| < 17 || GetU32(b) != |b| || b[4] != 110 then None
    else
      match GetStrings(b[17..], GetU16(b[15..]))
      case None => None
      case Some(names) => Some(Walk(GetU16(b[5..]), GetU32(b[7..]), GetU32(b[11..]), names))
  }

  ghost predicate Encodable(w: Walk) {
    && w.tag < 0x1_0000 && w.fid < 0x1_0000_0000 && w.newfid < 0x1_0000_0000 && |w.names| < 0x1_0000
    && (forall k :: 0 <= k < |w.names| ==> |w.names[k]| < 0x1_0000) && |Encode(w)| < 0x1_0000_0000
  }

  lemma FirstString(s: seq<Byte>, rest: seq<Byte>)
    requires |s| < 0x1_0000
    ensures var b := PutString(s) + rest;
            |b| >= 2 + |s| && GetU16(b) == |s| && b[2..2 + |s|] == s && b[2 + |s|..] == rest
  {
    hide U16, GetU16;
    U16RoundTrip(|s|);
    var b := PutString(s) + rest;
    assert b[..2] == U16(|s|);
    FrontU16(b);
  }

  lemma {:induction false} StringsRoundTrip(names: seq<seq<Byte>>)
    requires forall k :: 0 <= k < |names| ==> |names[k]| < 0x1_0000
    ensures GetStrings(PutStrings(names), |names|) == Some(names)
  {
    hide U16, GetU16, PutString;
    if names != [] {
      StringsRoundTrip(names[1..]);
      FirstString(names[0], PutStrings(names[1..]));
      assert [names[0]] + names[1..] == names;
    }
  }

  lemma Fields(w: Walk)
    ensures var b := Encode(w);
            && |b| >= 17 && b[..4] == U32(|b|) && b[4] == TWALK && b[5..7] == U16(w.tag) && b[7..11] == U32(w.fid)
            && b[11..15] == U32(w.newfid) && b[15..17] == U16(|w.names|) && b[17..] == PutStrings(w.names)
  {
    hide U16, U32;
    var b := Encode(w);
    assert b == U32(4 + |Body(w)|) + [TWALK] + U16(w.tag) + U32(w.fid) + U32(w.newfid) + U16(|w.names|) + PutStrings(w.names);
  }

  lemma FrontU16(b: seq<Byte>)
    requires |b| >= 2
    ensures GetU16(b) == GetU16(b[..2])
  {
  }

  lemma FrontU32(b: seq<Byte>)
    requires |b| >= 4
    ensures GetU32(b) == GetU32(b[..4])
  {
  }

  /** A server that follows the grammar reads back exactly what was encoded. */
  lemma WalkRoundTrip(w: Walk)
    requires Encodable(w)
    ensures Decode(Encode(w)) == Some(w)
  {
    hide U16, U32, GetU16, GetU32, Body;
    var b := Encode(w);
    Fields(w);
    StringsRoundTrip(w.names);
    U16RoundTrip(w.tag);
    U32RoundTrip(w.fid);
    U32RoundTrip(w.newfid);
    U16RoundTrip(|w.names|);
    U32RoundTrip(|b|);
    FrontU32(b);
    FrontU16(b[5..]);
    FrontU32(b[7..]);
    FrontU32(b[11..]);
    FrontU16(b[15..]);
    assert b[5..][..2] == b[5..7] && b[7..][..4] == b[7..11] && b[11..][..4] == b[11..15] && b[15..][..2] == b[15..17];
  }

  // ----- path components -------------------------------------------------------------------

  /** Length of the name at the start of a path: up to the first slash. */
  function NameLength(p: seq<Byte>): (k: nat)
    ensures k <= |p| && (k < |p| ==> p[k] == SLASH) && forall i :: 0 <= i < k ==> p[i] != SLASH
  {
    if p == [] || p[0] == SLASH then 0 else 1 + NameLength(p[1..])
  }

  /** The non-empty parts of a path between slashes, in order. */
  function Components(p: seq<Byte>): seq<seq<Byte>>
    decreases |p|
  {
    if p == [] then []
    else if p[0] == SLASH then Components(p[1..])
    else [p[..NameLength(p)]] + Components(p[NameLength(p)..])
  }

  ghost predicate IsName(s: seq<Byte>) { s != [] && SLASH !in s }

  function Join(names: seq<seq<Byte>>): seq<Byte> {
    if names == [] then [] else [SLASH] + names[0] + Join(names[1..])
  }

  lemma {:induction false} NameEnds(s: seq<Byte>, rest: seq<Byte>)
    requires SLASH !in s && (rest == [] || rest[0] == SLASH)
    ensures NameLength(s + rest) == |s|
    decreases |s|
  {
    if s == [] {
      assert s + rest == rest;
    } else {
      assert (s + rest)[1..] == s[1..] + rest;
      NameEnds(s[1..], rest);
    }
  }

  lemma FirstComponent(s: seq<Byte>, rest: seq<Byte>)
    requires IsName(s) && (rest == [] || rest[0] == SLASH)
    ensures Components(s + rest) == [s] + Components(rest)
  {
    NameEnds(s, rest);
    assert (s + rest)[..|s|] == s && (s + rest)[|s|..] == rest;
    assert (s + rest)[0] == s[0];
  }

  /** Splitting undoes joining. */
  lemma {:induction false} ComponentsOfJoin(names: seq<seq<Byte>>)
    requires forall k :: 0 <= k < |names| ==> IsName(names[k])
    ensures Components(Join(names)) == names
    decreases |names|
  {
    hide IsName, NameLength, Components;
    if names == [] {
      EmptyPath();
    } else {
      var s, rest := names[0], Join(names[1..]);
      ComponentsOfJoin(names[1..]);
      FirstComponent(s, rest);
      AfterSlash(s + rest);
      assert Join(names) == [SLASH] + (s + rest);
      assert [s] + names[1..] == names;
    }
  }

  lemma EmptyPath()
    ensures Components([]) == []
  {
  }

  lemma AfterSlash(p: seq<Byte>)
    ensures Components([SLASH] + p) == Components(p)
  {
    assert ([SLASH] + p)[1..] == p;
  }

  /** Components are non-empty, free of slashes, and no longer together than the path. */
  lemma {:induction false} ComponentsAreNames(p: seq<Byte>)
    ensures forall k :: 0 <= k < |Components(p)| ==> IsName(Components(p)[k]) && |Components(p)[k]| <= |p|
    ensures |PutStrings(Components(p))| <= |p| + 2 * |Components(p)| && |Components(p)| <= |p|
    decreases |p|
  {
    if p != [] {
      if p[0] == SLASH {
        ComponentsAreNames(p[1..]);
      } else {
        var k := NameLength(p);
        ComponentsAreNames(p[k..]);
        assert Components(p)[1..] == Components(p[k..]);
      }
    }
  }
}

/** Building a Twalk message in the transmit buffer, splitting a copy of the path in place. */
module WalkBuilder {
  import opened Wrappers
  import opened WalkMessages

  const PATH_SIZE: nat := 256
  const MAX_NAMES: nat := 32
  const BUFFER_SIZE: nat := 8192

  /** The NUL-terminated string at index `k`. */
  function CString(s: seq<Byte>, k: nat): seq<Byte>
    decreases |s| - k
  {
    if k >= |s| || s[k] == 0 then [] else [s[k]] + CString(s, k + 1)
  }

  /** Name `s`, which has no NUL, stands at `k` with its terminator. */
  ghost predicate Stands(c: seq<Byte>, k: nat, s: seq<Byte>) {
    k + |s| < |c| && c[k..k + |s|] == s && c[k + |s|] == 0 && 0 !in s
  }

  lemma {:induction false} StandsIsCString(c: seq<Byte>, k: nat, s: seq<Byte>)
    requires Stands(c, k, s)
    ensures CString(c, k) == s
    decreases |s|
  {
    if s != [] {
      assert c[k] == c[k..k + |s|][0] == s[0];
      assert s[0] in s;
      assert c[k + 1..k + 1 + |s[1..]|] == c[k..k + |s|][1..];
      StandsIsCString(c, k + 1, s[1..]);
    }
  }

  /** From `t` on, the copy still holds the path and its terminator. */
  ghost predicate Unread(c: seq<Byte>, path: seq<Byte>, t: nat) {
    |c| == PATH_SIZE && |path| < PATH_SIZE && t <= |path| && c[t..|path|] == path[t..] && c[|path|] == 0 && 0 !in path
  }

  lemma UnreadAt(c: seq<Byte>, path: seq<Byte>, t: nat, k: nat)
    requires Unread(c, path, t) && t <= k <= |path|
    ensures Unread(c, path, k) && (k < |path| ==> c[k] == path[k] && c[k] != 0)
  {
    assert c[t..|path|][k - t..] == c[k..|path|] && path[t..][k - t..] == path[k..];
    assert k < |path| ==> c[k..|path|][0] == path[k..][0] && path[k] in path;
  }

  /** The first `nw` components stand in the copy, all before index `t` or at its very end. */
  ghost predicate SplitUpTo(c: seq<Byte>, path: seq<Byte>, starts: seq<nat>, nw: nat, t: nat)
    requires nw <= |starts| && t <= |path|
  {
    && nw <= |Components(path)| && Components(path)[nw..] == Components(path[t..])
    && (forall i :: 0 <= i < nw ==> Stands(c, starts[i], Components(path)[i]))
    && (forall i :: 0 <= i < nw ==> starts[i] + |Components(path)[i]| < t || starts[i] + |Components(path)[i]| == t == |path|)
  }

  method SkipSlashes(c: array<Byte>, t: nat, ghost path: seq<Byte>) returns (t': nat)
    requires t <= |path| && Unread(c[..], path, t)
    ensures t <= t' <= |path| && Unread(c[..], path, t') && (t' < |path| ==> path[t'] != SLASH)
    ensures Components(path[t..]) == Components(path[t'..])
  {
    t' := t;
    UnreadAt(c[..], path, t, t);
    while c[t'] == SLASH
      invariant t <= t' <= |path| && Unread(c[..], path, t') && (t' < |path| ==> c[t'] == path[t'])
      invariant Components(path[t..]) == Components(path[t'..])
      decreases |path| - t'
    {
      assert path[t'..][1..] == path[t' + 1..];
      UnreadAt(c[..], path, t', t' + 1);
      t' := t' + 1;
    }
  }

  method FindEnd(c: array<Byte>, t: nat, ghost path: seq<Byte>) returns (e: nat)
    requires t < |path| && Unread(c[..], path, t)
    ensures e == t + NameLength(path[t..]) && e <= |path| && Unread(c[..], path, e) && (e < |path| ==> c[e] == SLASH)
    ensures e < |path| ==> path[e] == SLASH
  {
    e := t;
    UnreadAt(c[..], path, t, t);
    while c[e] != 0 && c[e] != SLASH
      invariant t <= e <= |path| && Unread(c[..], path, e) && (e < |path| ==> c[e] == path[e] && c[e] != 0)
      invariant NameLength(path[t..]) == e - t + NameLength(path[e..])
      decreases |path| - e
    {
      assert path[e..][1..] == path[e + 1..];
      UnreadAt(c[..], path, e, e + 1);
      e := e + 1;
    }
  }

  /** The next component is the name just found, and the rest of the path holds the others. */
  lemma NextComponent(path: seq<Byte>, nw: nat, t: nat, e: nat)
    requires t < |path| && path[t] != SLASH && e == t + NameLength(path[t..]) && nw <= |Components(path)|
    requires Components(path)[nw..] == Components(path[t..])
    ensures t < e <= |path| && nw < |Components(path)| && Components(path)[nw] == path[t..e]
    ensures Components(path)[nw + 1..] == Components(path[e..])
    ensures e < |path| ==> Components(path)[nw + 1..] == Components(path[e + 1..])
  {
    var rest := path[t..];
    var k := NameLength(rest);
    assert rest[0] == path[t];
    assert rest[..k] == path[t..e] && rest[k..] == path[e..];
    assert Components(rest) == [rest[..k]] + Components(rest[k..]);
    assert Components(path)[nw..][0] == Components(path)[nw] && Components(path)[nw..][1..] == Components(path)[nw + 1..];
    if e < |path| {
      assert rest[k] == path[e];
      assert path[e..][0] == SLASH && path[e..][1..] == path[e + 1..];
    }
  }

  /** Cutting the copy at the end of the name completes one more component. */
  lemma SplitStep(c: seq<Byte>, path: seq<Byte>, starts: seq<nat>, nw: nat, t: nat, e: nat)
    requires nw < |starts| && t < |path| && Unread(c, path, t) && path[t] != SLASH && e == t + NameLength(path[t..])
    requires SplitUpTo(c, path, starts, nw, t) && starts[nw] == t && e <= |path|
    ensures e == |path| ==> SplitUpTo(c, path, starts, nw + 1, e)
    ensures e < |path| ==> SplitUpTo(c[e := 0], path, starts, nw + 1, e + 1) && Unread(c[e := 0], path, e + 1)
  {
    hide Components, NameLength;
    NextComponent(path, nw, t, e);
    var c' := if e < |path| then c[e := 0] else c;
    assert c'[t..e] == path[t..e] by {
      assert c[t..|path|][..e - t] == c[t..e] && path[t..][..e - t] == path[t..e];
    }
    assert forall i :: 0 <= i < |path[t..e]| ==> path[t..e][i] in path;
    assert Stands(c', t, path[t..e]);
    forall i | 0 <= i < nw ensures Stands(c', starts[i], Components(path)[i]) {
      var s := Components(path)[i];
      assert c'[starts[i]..starts[i] + |s|] == c[starts[i]..starts[i] + |s|];
    }
    if e < |path| {
      UnreadAt(c, path, t, e + 1);
      assert c'[e + 1..|path|] == c[e + 1..|path|];
    }
  }

  /** The splitting loop of `p9_walk`: `starts[..nw]` are the components, as C strings in the copy. */
  method SplitPath(c: array<Byte>, ghost path: seq<Byte>) returns (starts: array<nat>, nw: nat)
    requires Unread(c[..], path, 0) && |Components(path)| <= MAX_NAMES
    modifies c
    ensures fresh(starts) && starts.Length == MAX_NAMES && nw == |Components(path)|
    ensures forall i :: 0 <= i < nw ==> Stands(c[..], starts[i], Components(path)[i])
    ensures forall i :: 0 <= i < nw ==> CString(c[..], starts[i]) == Components(path)[i]
  {
    starts := new nat[MAX_NAMES](_ => 0);
    nw := 0;
    var t: nat := 0;
    assert path[0..] == path && Components(path)[0..] == Components(path);
    while c[t] != 0
      invariant t <= |path| && Unread(c[..], path, t) && nw <= MAX_NAMES && SplitUpTo(c[..], path, starts[..], nw, t)
      decreases |path| - t
    {
      hide Components, NameLength, SplitUpTo;
      UnreadAt(c[..], path, t, t);
      var t0 := t;
      t := SkipSlashes(c, t, path);
      SkipKeeps(c[..], path, starts[..], nw, t0, t);
      UnreadAt(c[..], path, t, t);
      if c[t] == 0 {
        EndReached(c[..], path, t);
        break;
      }
      RoomForName(c[..], path, starts[..], nw, t);
      ghost var before := starts[..];
      starts[nw] := t;
      assert starts[..] == before[nw := t];
      SameStarts(c[..], path, before, starts[..], nw, t);
      var e := FindEnd(c, t, path);
      SplitStep(c[..], path, starts[..], nw, t, e);
      nw := nw + 1;
      t := e;
      if c[t] == SLASH {
        c[t] := 0;
        t := t + 1;
      }
    }
    EndReached(c[..], path, t);
    forall i: nat | i < nw ensures CString(c[..], starts[i]) == Components(path)[i] {
      StandsIsCString(c[..], starts[i], Components(path)[i]);
    }
  }

  lemma EndReached(c: seq<Byte>, path: seq<Byte>, t: nat)
    requires t <= |path| && Unread(c, path, t) && c[t] == 0
    ensures t == |path| && Components(path[t..]) == []
  {
    UnreadAt(c, path, t, t);
  }

  lemma SkipKeeps(c: seq<Byte>, path: seq<Byte>, starts: seq<nat>, nw: nat, t: nat, t': nat)
    requires nw <= |starts| && t < |path| && t <= t' <= |path| && SplitUpTo(c, path, starts, nw, t)
    requires Components(path[t..]) == Components(path[t'..])
    ensures SplitUpTo(c, path, starts, nw, t')
  {
    hide Components;
  }

  lemma SameStarts(c: seq<Byte>, path: seq<Byte>, starts: seq<nat>, starts': seq<nat>, nw: nat, t: nat)
    requires nw < |starts| && t <= |path| && SplitUpTo(c, path, starts, nw, t) && starts' == starts[nw := t]
    ensures SplitUpTo(c, path, starts', nw, t)
  {
    hide Components;
  }

  lemma RoomForName(c: seq<Byte>, path: seq<Byte>, starts: seq<nat>, nw: nat, t: nat)
    requires t < |path| && path[t] != SLASH && nw <= |starts| && SplitUpTo(c, path, starts, nw, t)
    ensures nw < |Components(path)|
  {
    assert path[t..][0] == path[t];
  }

  /** `strcpy` of a path shorter than the copy. */
  method CopyPath(path: seq<Byte>) returns (c: array<Byte>)
    requires |path| < PATH_SIZE && 0 !in path
    ensures fresh(c) && Unread(c[..], path, 0)
  {
    c := new Byte[PATH_SIZE](_ => 0);
    for i := 0 to |path|
      invariant c[..i] == path[..i]
    {
      c[i] := path[i];
    }
    c[|path|] := 0;
    assert c[..][0..|path|] == c[..|path|] == path[..|path|] == path[0..];
  }

  method StringLength(c: array<Byte>, k: nat, ghost s: seq<Byte>) returns (n: nat)
    requires Stands(c[..], k, s)
    ensures n == |s|
  {
    n := 0;
    while c[k + n] != 0
      invariant n <= |s|
      decreases |s| - n
    {
      assert n < |s| ==> c[..][k..k + |s|][n] == s[n];
      n := n + 1;
    }
  }

  /** What was appended so far: the bytes from index 4 up to the write position. */
  ghost predicate Written(tx: seq<Byte>, pos: nat, out: seq<Byte>) {
    |tx| == BUFFER_SIZE && 4 <= pos <= |tx| && tx[4..pos] == out
  }

  class Transmitter {
    const tx: array<Byte>
    var tag: nat

    constructor ()
      ensures tx.Length == BUFFER_SIZE && tag == 0 && fresh(tx)
    {
      tx := new Byte[BUFFER_SIZE](_ => 0);
      tag := 0;
    }

    /** Replaces the bytes at `pos`. */
    method Write(pos: nat, b: seq<Byte>)
      requires pos + |b| <= tx.Length
      modifies tx
      ensures tx[..] == old(tx[..])[..pos] + b + old(tx[..])[pos + |b|..]
    {
      for i := 0 to |b|
        invariant forall k :: 0 <= k < tx.Length ==> tx[k] == if pos <= k < pos + i then b[k - pos] else old(tx[k])
      {
        tx[pos + i] := b[i];
      }
    }

    /** Writes at the moving pointer. */
    method Append(pos: nat, b: seq<Byte>, ghost out: seq<Byte>) returns (pos': nat)
      requires Written(tx[..], pos, out) && pos + |b| <= BUFFER_SIZE
      modifies tx
      ensures pos' == pos + |b| && Written(tx[..], pos', out + b)
    {
      Write(pos, b);
      pos' := pos + |b|;
      assert tx[..][4..pos'] == old(tx[..])[4..pos] + b;
    }

    /** `write_string` of the C string at index `k` of the path copy. */
    method AppendString(pos: nat, c: array<Byte>, k: nat, ghost s: seq<Byte>, ghost out: seq<Byte>) returns (pos': nat)
      requires c != tx && Written(tx[..], pos, out) && Stands(c[..], k, s) && pos + 2 + |s| <= BUFFER_SIZE
      modifies tx
      ensures pos' == pos + 2 + |s| && Written(tx[..], pos', out + PutString(s))
    {
      var len := StringLength(c, k, s);
      pos' := Append(pos, U16(len % 0x1_0000), out);
      pos' := Append(pos', c[k..k + len], out + U16(len % 0x1_0000));
      assert c[k..k + len] == s;
      assert out + U16(len % 0x1_0000) + s == out + PutString(s);
    }

    /** Message building in `p9_walk`: the message in the buffer is one that a server decodes to
        the request and exactly the components of the path. */
    method BuildWalk(fid: nat, newfid: nat, path: seq<Byte>) returns (size: nat)
      requires tx.Length == BUFFER_SIZE && tag < 0x1_0000 && fid < 0x1_0000_0000 && newfid < 0x1_0000_0000
      requires |path| < PATH_SIZE && 0 !in path && |Components(path)| <= MAX_NAMES
      modifies this, tx
      ensures tag == (old(tag) + 1) % 0x1_0000
      ensures size <= BUFFER_SIZE && tx[..size] == Encode(Walk(old(tag), fid, newfid, Components(path)))
      ensures Decode(tx[..size]) == Some(Walk(old(tag), fid, newfid, Components(path)))
    {
      hide U16, U32, PutStrings, Components, Encode, Decode;
      ghost var w := Walk(tag, fid, newfid, Components(path));
      ComponentsAreNames(path);
      var pos := 4;
      ghost var out: seq<Byte> := [];
      pos := Append(pos, [TWALK], out);
      pos := Append(pos, U16(tag), [TWALK]);
      tag := (tag + 1) % 0x1_0000;
      pos := Append(pos, U32(fid), [TWALK] + U16(w.tag));
      pos := Append(pos, U32(newfid), [TWALK] + U16(w.tag) + U32(fid));
      out := [TWALK] + U16(w.tag) + U32(fid) + U32(newfid);
      if path == [] {
        NoComponents();
        pos := Append(pos, U16(0), out);
      } else {
        pos := AppendNames(pos, path, out);
      }
      size := pos;
      assert Written(tx[..], size, Body(w)) by { BodyOf(w, out); }
      ghost var before := tx[..];
      Write(0, U32(size));
      assert tx[..size] == U32(size) + before[4..size] by { SizeWritten(before, tx[..], size); }
      Finish(w, before, size);
      WalkRoundTrip(w);
    }

    /** Splits the path and writes the count and the names. */
    method AppendNames(pos: nat, path: seq<Byte>, ghost out: seq<Byte>) returns (pos': nat)
      requires Written(tx[..], pos, out) && pos + 2 + |path| + 2 * MAX_NAMES <= BUFFER_SIZE
      requires |path| < PATH_SIZE && 0 !in path && |Components(path)| <= MAX_NAMES
      modifies tx
      ensures Written(tx[..], pos', out + U16(|Components(path)|) + PutStrings(Components(path)))
    {
      hide U16, PutStrings, Components;
      ghost var names := Components(path);
      ComponentsAreNames(path);
      var c := CopyPath(path);
      var starts, nw := SplitPath(c, path);
      pos' := Append(pos, U16(nw), out);
      ghost var base := pos';
      ghost var front := out + U16(nw);
      NoStrings();
      assert names[..0] == [] && front + [] == front;
      for i := 0 to nw
        invariant Written(tx[..], pos', front + PutStrings(names[..i])) && pos' == base + |PutStrings(names[..i])|
        invariant forall k :: 0 <= k < nw ==> Stands(c[..], starts[k], names[k])
      {
        OneMoreString(names, i);
        ghost var sofar := PutStrings(names[..i]);
        pos' := AppendString(pos', c, starts[i], names[i], front + sofar);
        assert front + sofar + PutString(names[i]) == front + (sofar + PutString(names[i]));
      }
      assert names[..nw] == names;
    }
  }

  lemma SizeWritten(before: seq<Byte>, after: seq<Byte>, size: nat)
    requires size < 0x1_0000_0000 && 4 <= size <= |before| && after == before[..0] + U32(size) + before[0 + |U32(size)|..]
    ensures |U32(size)| == 4 && after[..size] == U32(size) + before[4..size]
  {
  }

  lemma NoStrings()
    ensures PutStrings([]) == []
  {
  }

  lemma NoComponents()
    ensures Components([]) == [] && PutStrings([]) == []
  {
  }

  lemma {:induction false} PutStringsJoin(xs: seq<seq<Byte>>, ys: seq<seq<Byte>>)
    ensures PutStrings(xs + ys) == PutStrings(xs) + PutStrings(ys)
    decreases |xs|
  {
    if xs == [] {
      assert xs + ys == ys;
    } else {
      assert (xs + ys)[1..] == xs[1..] + ys;
      PutStringsJoin(xs[1..], ys);
    }
  }

  lemma OneMoreString(names: seq<seq<Byte>>, i: nat)
    requires i < |names|
    ensures PutStrings(names[..i + 1]) == PutStrings(names[..i]) + PutString(names[i])
    ensures |PutStrings(names[..i])| + 2 + |names[i]| <= |PutStrings(names)|
  {
    var one := [names[i]];
    assert names[..i + 1] == names[..i] + one && names == names[..i + 1] + names[i + 1..];
    PutStringsJoin(names[..i], one);
    PutStringsJoin(names[..i + 1], names[i + 1..]);
    assert one[1..] == [] && PutStrings(one) == PutString(names[i]) + PutStrings([]);
  }

  lemma BodyOf(w: Walk, out: seq<Byte>)
    requires out == [TWALK] + U16(w.tag) + U32(w.fid) + U32(w.newfid)
    ensures out + U16(|w.names|) + PutStrings(w.names) == Body(w)
  {
  }

  lemma Finish(w: Walk, tx: seq<Byte>, size: nat)
    requires Written(tx, size, Body(w)) && |w.names| <= MAX_NAMES && w.tag < 0x1_0000 && w.fid < 0x1_0000_0000 && w.newfid < 0x1_0000_0000
    requires forall k :: 0 <= k < |w.names| ==> |w.names[k]| < 0x1_0000
    ensures U32(size) + tx[4..size] == Encode(w) && Encodable(w)
  {
    hide U16, U32, PutStrings;
    assert |Body(w)| == size - 4;
  }
}
