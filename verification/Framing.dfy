/** A byte stream that is a row of messages, cut at an arbitrary byte. */
module Framing {
  import opened Bytes

  predicate NoneEmpty(ms: seq<seq<Byte>>) {
    forall i | 0 <= i < |ms| :: ms[i] != []
  }

  // How many messages are complete after n bytes.
  function Whole(ms: seq<seq<Byte>>, n: nat): (k: nat)
    ensures k <= |ms|
  {
    if ms == [] || n < |ms[0]| then 0 else 1 + Whole(ms[1..], n - |ms[0]|)
  }

  // The bytes of the message that n cuts through.
  function Left(ms: seq<seq<Byte>>, n: nat): seq<Byte>
    requires n <= |Flatten(ms)|
  {
    if ms == [] then []
    else if n < |ms[0]| then ms[0][..n]
    else Left(ms[1..], n - |ms[0]|)
  }

  lemma {:induction false} CutSplits(ms: seq<seq<Byte>>, n: nat)
    requires n <= |Flatten(ms)|
    ensures var k := Whole(ms, n);
            && Flatten(ms)[..n] == Flatten(ms[..k]) + Left(ms, n)
            && (Left(ms, n) == [] || (k < |ms| && Left(ms, n) < ms[k]))
  {
    var k := Whole(ms, n);
    if ms != [] && n >= |ms[0]| {
      CutSplits(ms[1..], n - |ms[0]|);
      assert ms[..k][0] == ms[0] && ms[..k][1..] == ms[1..][..k - 1];
      assert Flatten(ms)[..n] == ms[0] + Flatten(ms[1..])[..n - |ms[0]|];
      assert ms[0] + (Flatten(ms[1..][..k - 1]) + Left(ms, n)) == ms[0] + Flatten(ms[1..][..k - 1]) + Left(ms, n);
    } else {
      assert ms[..0] == [];
      assert [] + Left(ms, n) == Left(ms, n);
      assert Flatten(ms)[..n] == Left(ms, n);
    }
  }

  // Reading on from byte n: what was left and the new piece are the messages now complete and what
  // is left then.
  lemma {:induction false} ReadOn(ms: seq<seq<Byte>>, n: nat, piece: seq<Byte>)
    requires n + |piece| <= |Flatten(ms)| && piece == Flatten(ms)[n..n + |piece|]
    ensures var j, k := Whole(ms, n), Whole(ms, n + |piece|);
            && j <= k
            && Left(ms, n) + piece == Flatten(ms[j..k]) + Left(ms, n + |piece|)
  {
    hide Flatten;
    var j, k, m := Whole(ms, n), Whole(ms, n + |piece|), n + |piece|;
    FlattenStep(ms);
    if ms != [] && n >= |ms[0]| {
      SliceBehind(ms[0], Flatten(ms[1..]), n, m);
      ReadOn(ms[1..], n - |ms[0]|, piece);
      SliceOfRest(ms, j, k);
    } else {
      CutSplits(ms, m);
      assert Left(ms, n) + piece == Flatten(ms)[..m];
      assert ms[0..k] == ms[..k];
    }
  }

  lemma SliceOfRest<T>(s: seq<T>, j: nat, k: nat)
    requires 1 <= j <= k <= |s|
    ensures s[1..][j - 1..k - 1] == s[j..k]
  {
  }

  lemma FlattenStep(ms: seq<seq<Byte>>)
    ensures Flatten(ms) == if ms == [] then [] else ms[0] + Flatten(ms[1..])
  {
  }

  lemma SliceBehind(a: seq<Byte>, b: seq<Byte>, n: nat, m: nat)
    requires |a| <= n <= m <= |a + b|
    ensures (a + b)[n..m] == b[n - |a|..m - |a|]
  {
  }

  lemma {:induction false} WholeOfAll(ms: seq<seq<Byte>>)
    requires NoneEmpty(ms)
    ensures Whole(ms, |Flatten(ms)|) == |ms| && Left(ms, |Flatten(ms)|) == []
  {
    if ms != [] {
      WholeOfAll(ms[1..]);
    }
  }

  lemma WholeOfNone(ms: seq<seq<Byte>>)
    requires NoneEmpty(ms)
    ensures Whole(ms, 0) == 0 && Left(ms, 0) == []
  {
  }

  lemma FlattenPiece(piece: seq<Byte>, tail: seq<Byte>, stream: seq<Byte>, n: nat)
    requires n + |piece + tail| <= |stream| && piece + tail == stream[n..n + |piece + tail|]
    ensures piece == stream[n..n + |piece|]
    ensures tail == stream[n + |piece|..n + |piece| + |tail|]
  {
    assert piece == (piece + tail)[..|piece|];
    assert tail == (piece + tail)[|piece|..];
  }

  // ---- a reader of messages behind a buffer --------------------------------------------------

  // What a reader makes of the bytes it has: the messages handed on, what stays in the buffer, and
  // whether the stream made sense.
  datatype Fetched<T> = Fetched(log: seq<T>, rest: seq<Byte>, ok: bool) {
    function After(before: seq<T>): Fetched<T> {
      Fetched(before + log, rest, ok)
    }
  }

  // The reader `fetch` takes the messages `ms`, encoded as `ss`: a complete one in front is handed on,
  // the beginning of one is left alone.
  ghost predicate Takes<T>(fetch: seq<Byte> -> Fetched<T>, ms: seq<T>, ss: seq<seq<Byte>>) {
    && |ss| == |ms| && NoneEmpty(ss)
    && (forall i, rest | 0 <= i < |ss| :: fetch(ss[i] + rest) == fetch(rest).After([ms[i]]))
    && (forall i, part | 0 <= i < |ss| && part < ss[i] :: fetch(part) == Fetched([], part, true))
    && fetch([]) == Fetched([], [], true)
  }

  // Reading the pieces one after the other, each behind what the last read left.
  function FetchAll<T>(fetch: seq<Byte> -> Fetched<T>, buf: seq<Byte>, pieces: seq<seq<Byte>>): (r: Fetched<T>)
    decreases |pieces|
  {
    if pieces == [] then Fetched([], buf, true)
    else
      var r := fetch(buf + pieces[0]);
      if r.ok then FetchAll(fetch, r.rest, pieces[1..]).After(r.log) else r
  }

  lemma {:induction false} FetchSlice<T>(fetch: seq<Byte> -> Fetched<T>, ms: seq<T>, ss: seq<seq<Byte>>, j: nat, k: nat, rest: seq<Byte>)
    requires Takes(fetch, ms, ss) && j <= k <= |ms|
    ensures fetch(Flatten(ss[j..k]) + rest) == fetch(rest).After(ms[j..k])
    decreases k - j
  {
    if j == k {
      assert [] + rest == rest;
      assert [] + fetch(rest).log == fetch(rest).log;
    } else {
      assert ss[j..k][1..] == ss[j + 1..k];
      Assoc(ss[j], Flatten(ss[j + 1..k]), rest);
      FetchSlice(fetch, ms, ss, j + 1, k, rest);
      assert [ms[j]] + (ms[j + 1..k] + fetch(rest).log) == ms[j..k] + fetch(rest).log;
    }
  }

  // One more read, whatever its size, takes the buffer from byte n of the stream to byte n + |piece|.
  lemma OneFetch<T>(fetch: seq<Byte> -> Fetched<T>, ms: seq<T>, ss: seq<seq<Byte>>, n: nat, piece: seq<Byte>)
    requires Takes(fetch, ms, ss)
    requires n + |piece| <= |Flatten(ss)| && piece == Flatten(ss)[n..n + |piece|]
    ensures var m := n + |piece|;
            && Whole(ss, n) <= Whole(ss, m)
            && fetch(Left(ss, n) + piece) == Fetched(ms[Whole(ss, n)..Whole(ss, m)], Left(ss, m), true)
  {
    hide Whole, Left, Flatten;
    var m := n + |piece|;
    var j, k := Whole(ss, n), Whole(ss, m);
    ReadOn(ss, n, piece);
    CutSplits(ss, m);
    FetchSlice(fetch, ms, ss, j, k, Left(ss, m));
    assert ms[j..k] + [] == ms[j..k];
  }

  lemma {:induction false} FetchesAdvance<T>(fetch: seq<Byte> -> Fetched<T>, ms: seq<T>, ss: seq<seq<Byte>>, n: nat, pieces: seq<seq<Byte>>)
    requires Takes(fetch, ms, ss)
    requires n + |Flatten(pieces)| <= |Flatten(ss)| && Flatten(pieces) == Flatten(ss)[n..n + |Flatten(pieces)|]
    ensures var m := n + |Flatten(pieces)|;
            && Whole(ss, n) <= Whole(ss, m)
            && FetchAll(fetch, Left(ss, n), pieces) == Fetched(ms[Whole(ss, n)..Whole(ss, m)], Left(ss, m), true)
    decreases |pieces|
  {
    hide Whole, Left, Takes;
    assert |ss| == |ms| by { TakesAll(fetch, ms, ss); }
    if pieces != [] {
      var p := pieces[0];
      FlattenPiece(p, Flatten(pieces[1..]), Flatten(ss), n);
      OneFetch(fetch, ms, ss, n, p);
      FetchesAdvance(fetch, ms, ss, n + |p|, pieces[1..]);
      var i, j, k := Whole(ss, n), Whole(ss, n + |p|), Whole(ss, n + |Flatten(pieces)|);
      JoinSlices(ms, i, j, k);
    }
  }

  lemma JoinSlices<T>(s: seq<T>, i: nat, j: nat, k: nat)
    requires i <= j <= k <= |s|
    ensures s[i..j] + s[j..k] == s[i..k]
  {
  }

  lemma JoinPrefix<T>(s: seq<T>, i: nat, j: nat)
    requires i <= j <= |s|
    ensures s[..i] + s[i..j] == s[..j]
  {
  }

  lemma TakesAll<T>(fetch: seq<Byte> -> Fetched<T>, ms: seq<T>, ss: seq<seq<Byte>>)
    requires Takes(fetch, ms, ss)
    ensures |ss| == |ms| && NoneEmpty(ss)
  {
  }

  // Whatever pieces the stream is read in: the messages complete so far are handed on, in order, each
  // once, as by one big read, and the buffer holds exactly the bytes of the message not yet complete.
  lemma AnyPieces<T>(fetch: seq<Byte> -> Fetched<T>, ms: seq<T>, ss: seq<seq<Byte>>, pieces: seq<seq<Byte>>)
    requires Takes(fetch, ms, ss) && Flatten(pieces) <= Flatten(ss)
    ensures |ss| == |ms|
    ensures var r, k := FetchAll(fetch, [], pieces), Whole(ss, |Flatten(pieces)|);
            && r == fetch(Flatten(pieces))
            && r.ok && r.log == ms[..k]
            && Flatten(ss[..k]) + r.rest == Flatten(pieces)
            && (r.rest == [] || (k < |ss| && r.rest < ss[k]))
  {
    hide Whole, Left, Flatten, Takes, FetchAll;
    var n := |Flatten(pieces)|;
    TakesAll(fetch, ms, ss);
    PrefixIs(Flatten(pieces), Flatten(ss));
    ManyReads(fetch, ms, ss, pieces);
    OneBigRead(fetch, ms, ss, Flatten(pieces));
    CutSplits(ss, n);
  }

  lemma ManyReads<T>(fetch: seq<Byte> -> Fetched<T>, ms: seq<T>, ss: seq<seq<Byte>>, pieces: seq<seq<Byte>>)
    requires Takes(fetch, ms, ss) && |ss| == |ms| && Flatten(pieces) <= Flatten(ss)
    ensures var n := |Flatten(pieces)|;
            FetchAll(fetch, [], pieces) == Fetched(ms[..Whole(ss, n)], Left(ss, n), true)
  {
    hide Whole, Left, Flatten, Takes, FetchAll;
    TakesAll(fetch, ms, ss);
    WholeOfNone(ss);
    PrefixIs(Flatten(pieces), Flatten(ss));
    FetchesAdvance(fetch, ms, ss, 0, pieces);
    SliceFromZero(ms, Whole(ss, |Flatten(pieces)|));
  }

  lemma OneBigRead<T>(fetch: seq<Byte> -> Fetched<T>, ms: seq<T>, ss: seq<seq<Byte>>, all: seq<Byte>)
    requires Takes(fetch, ms, ss) && |ss| == |ms| && all <= Flatten(ss)
    ensures fetch(all) == Fetched(ms[..Whole(ss, |all|)], Left(ss, |all|), true)
  {
    hide Whole, Left, Flatten, Takes;
    TakesAll(fetch, ms, ss);
    WholeOfNone(ss);
    PrefixIs(all, Flatten(ss));
    OneFetch(fetch, ms, ss, 0, all);
    SliceFromZero(ms, Whole(ss, |all|));
  }

  lemma SliceFromZero<T>(s: seq<T>, k: nat)
    requires k <= |s|
    ensures s[0..k] == s[..k]
  {
  }

  lemma PrefixIs(s: seq<Byte>, stream: seq<Byte>)
    requires s <= stream
    ensures |s| <= |stream| && s == stream[0..0 + |s|] && s == stream[..|s|] && [] + s == s
  {
  }
}
