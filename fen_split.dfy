/** The first two steps of Abbie::EvaluateFEN: cutting the FEN string down to its
    piece-placement field, and splitting that field into row strings with a loop
    that runs a fixed six times. */
module FenSplit {
  import opened StdString

  /** How many times the split loop runs; one more row is pushed after it. */
  const SPLIT_COUNT: nat := 6

  /** The piece-placement field: everything before the first space of the FEN
      string, or the whole string when it has no space. */
  function Placement(fen: CppString): (r: CppString)
    ensures ' ' !in r
    ensures |r| <= |fen| && fen[..|r|] == r
    ensures |r| == |fen| || fen[|r|] == ' '
  {
    Substr(fen, 0, Find(fen, ' '))
  }

  /** One row pushed by the split loop: the text before the first '/', or all of
      it when there is none (`find` gives npos and `substr` keeps everything). */
  function RowOf(pieces: CppString): (row: CppString)
    ensures '/' !in row
    ensures |row| <= |pieces| && pieces[..|row|] == row
    ensures |row| == |pieces| || pieces[|row|] == '/'
  {
    Substr(pieces, 0, Find(pieces, '/'))
  }

  /** What the split loop keeps for its next iteration:
      `substr(find('/') + 1, size() - 1)` in `size_t` arithmetic. */
  function RestOf(pieces: CppString): (rest: CppString)
    ensures |rest| <= |pieces| && (pieces != [] ==> |rest| < |pieces|)
  {
    Substr(pieces, SizeAdd(Find(pieces, '/'), 1), SizeSub(|pieces|, 1))
  }

  /** The rows the split produces when `n` iterations remain: one row per
      iteration, then whatever is left. */
  function SplitFrom(pieces: CppString, n: nat): (rows: seq<string>)
    ensures |rows| == n + 1
    ensures forall k :: 0 <= k < n ==> '/' !in rows[k]
    decreases n
  {
    if n == 0 then [pieces]
    else [RowOf(pieces)] + SplitFrom(RestOf(pieces), n - 1)
  }

  /** The `rows` vector built from a placement field: seven rows, the first
      six free of '/', none holding a character the placement does not. */
  function SplitRows(placement: CppString): (rows: seq<string>)
    ensures |rows| == SPLIT_COUNT + 1
    ensures forall k :: 0 <= k < SPLIT_COUNT ==> '/' !in rows[k]
  {
    SplitFrom(placement, SPLIT_COUNT)
  }

  /** The split loop as written: six iterations each push the text before the
      next '/' and drop it, then the remainder is pushed as the seventh row. */
  method SplitIntoRows(placement: CppString) returns (rows: seq<string>)
    ensures rows == SplitRows(placement)
    ensures |rows| == SPLIT_COUNT + 1
  {
    ghost var goal := SplitRows(placement);
    var pieces := placement;
    rows := [];
    for i := 0 to SPLIT_COUNT
      invariant rows + SplitFrom(pieces, SPLIT_COUNT - i) == goal
    {
      SplitStep(rows, pieces, SPLIT_COUNT - i);
      rows := rows + [RowOf(pieces)];
      pieces := RestOf(pieces);
    }
    rows := rows + [pieces];
  }

  /** One iteration moves the next row from the rows still to come to the
      rows pushed so far. */
  lemma SplitStep(done: seq<string>, pieces: CppString, n: nat)
    requires n > 0
    ensures (done + [RowOf(pieces)]) + SplitFrom(RestOf(pieces), n - 1) == done + SplitFrom(pieces, n)
  {
    var row, later := RowOf(pieces), SplitFrom(RestOf(pieces), n - 1);
    assert SplitFrom(pieces, n) == [row] + later;
    assert (done + [row]) + later == done + ([row] + later);
  }

  /** Every character of `s` occurs in `t`. */
  predicate Within(s: string, t: string)
  {
    forall c :: c in s ==> c in t
  }

  /** The rows joined back together with a '/' between neighbours. */
  function Join(rows: seq<string>): string
    requires |rows| >= 1
  {
    if |rows| == 1 then rows[0] else rows[0] + ['/'] + Join(rows[1..])
  }

  /** Fields that hold no '/'. */
  predicate SlashFree(fields: seq<string>)
  {
    forall k :: 0 <= k < |fields| ==> '/' !in fields[k]
  }

  /** How many '/' a string holds. */
  function SlashCount(s: string): nat
  {
    if s == [] then 0 else (if s[0] == '/' then 1 else 0) + SlashCount(s[1..])
  }

  /** The placement field split at EVERY '/': the fields between the slashes. */
  function SplitAll(s: string): (rows: seq<string>)
    ensures |rows| == SlashCount(s) + 1
    ensures forall k :: 0 <= k < |rows| ==> '/' !in rows[k]
  {
    if s == [] then [[]]
    else
      var rest := SplitAll(s[1..]);
      if s[0] == '/' then [[]] + rest
      else [[s[0]] + rest[0]] + rest[1..]
  }

  /** Joining the fields of the full split gives back the string. */
  lemma {:induction false} JoinSplitAll(s: string)
    ensures Join(SplitAll(s)) == s
  {
    if s != [] {
      var rest := SplitAll(s[1..]);
      JoinSplitAll(s[1..]);
      assert s == [s[0]] + s[1..];
      if s[0] == '/' {
        assert ([[]] + rest)[1..] == rest;
      } else {
        var rows := [[s[0]] + rest[0]] + rest[1..];
        if |rest| > 1 {
          assert rows[1..] == rest[1..];
        }
      }
    }
  }

  /** The split loop as evidently intended: it pushes the text before the next
      '/' until none is left, then pushes the remainder. */
  method SplitRanks(placement: CppString) returns (rows: seq<string>)
    ensures rows == SplitAll(placement)
  {
    var pieces := placement;
    rows := [];
    var slash := Find(pieces, '/');
    while slash != NPOS
      invariant slash == Find(pieces, '/')
      invariant rows + SplitAll(pieces) == SplitAll(placement)
      decreases |pieces|
    {
      SplitAllStep(rows, pieces, slash);
      rows := rows + [pieces[..slash]];
      pieces := pieces[slash + 1..];
      slash := Find(pieces, '/');
    }
    SplitAllNoSlash(pieces);
    rows := rows + [pieces];
  }

  /** One iteration of the corrected loop moves the field before the first '/'
      from the fields still to come to the rows pushed so far. */
  lemma SplitAllStep(rows: seq<string>, pieces: string, k: nat)
    requires k < |pieces| && pieces[k] == '/' && '/' !in pieces[..k]
    ensures (rows + [pieces[..k]]) + SplitAll(pieces[k + 1..]) == rows + SplitAll(pieces)
  {
    var field, rest := pieces[..k], pieces[k + 1..];
    SplitAround(pieces, k);
    SplitAllAt(field, rest);
    Reassociate(rows, [field], SplitAll(rest));
  }

  lemma SplitAround<T>(s: seq<T>, k: nat)
    requires k < |s|
    ensures s == s[..k] + [s[k]] + s[k + 1..]
  {
  }

  lemma Reassociate<T>(a: seq<T>, b: seq<T>, c: seq<T>)
    ensures (a + b) + c == a + (b + c)
  {
  }

  // ---------------------------------------------------------------------
  // Properties of the cut at the first space

  /** Only the text before the first space matters: whatever follows the space
      that ends a placement field is ignored. */
  lemma PlacementOfFen(placement: string, rest: string)
    requires ' ' !in placement
    requires |placement| + 1 + |rest| < NPOS
    ensures Placement(placement + [' '] + rest) == placement
  {
    var fen := placement + [' '] + rest;
    FindAfter(placement, ' ', rest);
  }

  /** Appending text to a FEN string that already has a space changes nothing. */
  lemma PlacementIgnoresTail(fen: CppString, tail: string)
    requires ' ' in fen
    requires |fen| + |tail| < NPOS
    ensures Placement(fen + tail) == Placement(fen)
  {
    var k := Find(fen, ' ');
    assert fen == fen[..k] + [' '] + fen[k + 1..];
    assert fen + tail == fen[..k] + [' '] + (fen[k + 1..] + tail);
    PlacementOfFen(fen[..k], fen[k + 1..]);
    PlacementOfFen(fen[..k], fen[k + 1..] + tail);
  }

  // ---------------------------------------------------------------------
  // Properties of one split step

  /** When a '/' is present the step pushes the text before it and keeps
      exactly the text after it. */
  lemma StepAtSlash(a: string, b: string)
    requires '/' !in a
    requires |a| + 1 + |b| < NPOS
    ensures RowOf(a + ['/'] + b) == a
    ensures RestOf(a + ['/'] + b) == b
  {
    var s := a + ['/'] + b;
    FindAfter(a, '/', b);
    assert s[..|a|] == a;
    assert s[|a| + 1..] == b;
  }

  /** When no '/' is left, `find` gives npos: the step pushes the whole string,
      and since npos + 1 wraps to 0 it keeps the string minus its last
      character (and "" stays ""). */
  lemma StepWithoutSlash(pieces: CppString)
    requires '/' !in pieces
    ensures RowOf(pieces) == pieces
    ensures RestOf(pieces) == if pieces == [] then [] else pieces[..|pieces| - 1]
  {
  }

  // ---------------------------------------------------------------------
  // Properties of the whole split

  /** A remaining iteration over a '/'-free stretch and a '/' pushes the
      stretch and carries on with what follows the '/'. */
  lemma SplitFromAtSlash(a: string, b: string, n: nat)
    requires '/' !in a
    requires |a| + 1 + |b| < NPOS
    requires n > 0
    ensures SplitFrom(a + ['/'] + b, n) == [a] + SplitFrom(b, n - 1)
  {
    StepAtSlash(a, b);
  }

  /** On a string of '/'-free fields, each remaining iteration peels off one
      field; the last row is every field not yet peeled, slashes included. */
  lemma {:induction false} SplitFromJoin(fields: seq<string>, n: nat)
    requires n < |fields|
    requires SlashFree(fields)
    requires |Join(fields)| < NPOS
    ensures SplitFrom(Join(fields), n) == fields[..n] + [Join(fields[n..])]
  {
    if n > 0 {
      var tail := fields[1..];
      SplitFromJoinStep(fields, n);
      SplitFromJoin(tail, n - 1);
      SplitFromJoinCons(fields, tail, n);
    } else {
      assert fields[0..] == fields;
    }
  }

  /** The inductive step of SplitFromJoin: if it holds for the fields after
      the first, it holds for all of them. */
  lemma SplitFromJoinCons(fields: seq<string>, tail: seq<string>, n: nat)
    requires 0 < n < |fields| && tail == fields[1..]
    requires SlashFree(fields)
    requires |Join(fields)| < NPOS && |Join(tail)| < NPOS
    requires SplitFrom(Join(tail), n - 1) == tail[..n - 1] + [Join(tail[n - 1..])]
    ensures SplitFrom(Join(fields), n) == fields[..n] + [Join(fields[n..])]
  {
    SplitFromJoinStep(fields, n);
    ConsPrefix(fields, n, Join(fields[n..]));
  }

  lemma ConsPrefix<T>(xs: seq<T>, n: nat, last: T)
    requires 0 < n <= |xs|
    ensures xs[1..][n - 1..] == xs[n..]
    ensures [xs[0]] + (xs[1..][..n - 1] + [last]) == xs[..n] + [last]
  {
  }

  /** One iteration over joined fields peels off the first field. */
  lemma SplitFromJoinStep(fields: seq<string>, n: nat)
    requires 0 < n < |fields|
    requires SlashFree(fields)
    requires |Join(fields)| < NPOS
    ensures |Join(fields[1..])| < NPOS
    ensures SlashFree(fields[1..])
    ensures SplitFrom(Join(fields), n) == [fields[0]] + SplitFrom(Join(fields[1..]), n - 1)
  {
    assert forall k :: 0 <= k < |fields| - 1 ==> fields[1..][k] == fields[k + 1];
    assert Join(fields) == fields[0] + ['/'] + Join(fields[1..]);
    SplitFromAtSlash(fields[0], Join(fields[1..]), n);
  }

  /** Once no '/' is left every further row is the previous one minus its last
      character: row `i` is the string cut short by `i`. */
  lemma {:induction false} SplitFromWithoutSlash(pieces: CppString, n: nat)
    requires '/' !in pieces
    ensures forall i :: 0 <= i <= n ==> SplitFrom(pieces, n)[i] == pieces[..|pieces| - Min(i, |pieces|)]
  {
    if n > 0 {
      StepWithoutSlash(pieces);
      var rest := RestOf(pieces);
      assert '/' !in rest by {
        if pieces != [] {
          assert forall k :: 0 <= k < |rest| ==> rest[k] == pieces[k];
        }
      }
      SplitFromWithoutSlash(rest, n - 1);
      forall i | 0 <= i <= n
        ensures SplitFrom(pieces, n)[i] == pieces[..|pieces| - Min(i, |pieces|)]
      {
        if i > 0 {
          SplitFromAt(pieces, n, i);
        }
      }
    }
  }

  /** With at least six slashes, the split agrees with the full split on the
      first six rows, and the seventh row is everything after the sixth '/'. */
  lemma SplitRowsAgainstSplitAll(placement: CppString)
    requires SlashCount(placement) >= SPLIT_COUNT
    ensures SplitRows(placement) == SplitAll(placement)[..SPLIT_COUNT] + [Join(SplitAll(placement)[SPLIT_COUNT..])]
  {
    var fields := SplitAll(placement);
    JoinSplitAll(placement);
    SplitFromJoin(fields, SPLIT_COUNT);
  }

  /** With at least six slashes: the first six rows hold no '/', the rows join
      back into the placement, and the seventh row still holds a '/' exactly
      when the placement has seven or more (as every 8-rank placement does). */
  lemma SplitRowsShape(placement: CppString)
    requires SlashCount(placement) >= SPLIT_COUNT
    ensures forall k :: 0 <= k < SPLIT_COUNT ==> '/' !in SplitRows(placement)[k]
    ensures Join(SplitRows(placement)) == placement
    ensures '/' in SplitRows(placement)[SPLIT_COUNT] <==> SlashCount(placement) > SPLIT_COUNT
  {
    var fields := SplitAll(placement);
    var rows := SplitRows(placement);
    SplitRowsAgainstSplitAll(placement);
    JoinSplitAll(placement);
    JoinAfterPrefix(fields, SPLIT_COUNT);
    var last := fields[SPLIT_COUNT..];
    assert rows[SPLIT_COUNT] == Join(last);
    forall k | 0 <= k < SPLIT_COUNT
      ensures '/' !in rows[k]
    {
      assert rows[k] == fields[k];
    }
    if |last| > 1 {
      assert Join(last)[|last[0]|] == '/';
    } else {
      assert '/' !in last[0];
    }
  }

  /** Joining a prefix of the fields with the join of the rest is the join of
      them all. */
  lemma {:induction false} JoinAfterPrefix(fields: seq<string>, n: nat)
    requires n < |fields|
    ensures Join(fields[..n] + [Join(fields[n..])]) == Join(fields)
  {
    if n > 0 {
      JoinAfterPrefix(fields[1..], n - 1);
      assert fields[..n] + [Join(fields[n..])] == [fields[0]] + (fields[1..][..n - 1] + [Join(fields[1..][n - 1..])]);
    } else {
      assert fields[0..] == fields;
    }
  }

  /** Whatever the number of slashes, the last row can hold a '/' only when
      the string has more slashes than there are iterations left: each
      iteration over a '/' uses it up, and without one nothing is added. */
  lemma {:induction false} LastRowSlash(pieces: CppString, n: nat)
    ensures '/' in SplitFrom(pieces, n)[n] ==> SlashCount(pieces) > n
    decreases n
  {
    if n == 0 {
      SlashCountZero(pieces);
    } else {
      var rest := RestOf(pieces);
      var last, restLast := SplitFrom(pieces, n)[n], SplitFrom(rest, n - 1)[n - 1];
      SplitFromAt(pieces, n, n);
      LastRowSlash(rest, n - 1);
      RestOfSlashCount(pieces);
      if '/' in last {
        assert SlashCount(rest) > n - 1;
      }
    }
  }

  /** Row `k` after `n` iterations is row `k - 1` after `n - 1` iterations
      over what the first one keeps. */
  lemma SplitFromAt(pieces: CppString, n: nat, k: nat)
    requires 0 < k <= n
    ensures SplitFrom(pieces, n)[k] == SplitFrom(RestOf(pieces), n - 1)[k - 1]
  {
  }

  /** The six-iteration split, for every placement: the first six rows hold no
      '/', and the seventh holds one only when the placement has seven or more. */
  lemma SplitRowsSlashes(placement: CppString)
    ensures forall k :: 0 <= k < SPLIT_COUNT ==> '/' !in SplitRows(placement)[k]
    ensures '/' in SplitRows(placement)[SPLIT_COUNT] ==> SlashCount(placement) > SPLIT_COUNT
  {
    LastRowSlash(placement, SPLIT_COUNT);
  }

  /** One iteration uses up exactly the first '/', if there is one, and leaves
      no '/' behind when there is none. */
  lemma RestOfSlashCount(pieces: CppString)
    ensures '/' in pieces ==> SlashCount(RestOf(pieces)) + 1 == SlashCount(pieces)
    ensures '/' !in pieces ==> SlashCount(RestOf(pieces)) == 0
  {
    var rest := RestOf(pieces);
    if '/' in pieces {
      var k := Find(pieces, '/');
      var a, b := pieces[..k], pieces[k + 1..];
      SplitAround(pieces, k);
      StepAtSlash(a, b);
      SlashCountAppend(a + ['/'], b);
      SlashCountAppend(a, ['/']);
      SlashCountZero(a);
      assert SlashCount(['/']) == 1;
    } else {
      StepWithoutSlash(pieces);
      PrefixWithin(rest, pieces);
      SlashCountZero(rest);
    }
  }

  lemma {:induction false} SlashCountAppend(a: string, b: string)
    ensures SlashCount(a + b) == SlashCount(a) + SlashCount(b)
  {
    if a != [] {
      SlashCountAppend(a[1..], b);
      assert (a + b)[1..] == a[1..] + b;
    } else {
      assert a + b == b;
    }
  }

  /** A string has no slash count exactly when it has no '/'. */
  lemma {:induction false} SlashCountZero(s: string)
    ensures SlashCount(s) == 0 <==> '/' !in s
  {
    if s != [] {
      SlashCountZero(s[1..]);
      assert s == [s[0]] + s[1..];
    }
  }

  /** The split invents no character: every row is made of characters of the
      placement. */
  lemma {:induction false} SplitFromWithin(pieces: CppString, n: nat)
    ensures forall k :: 0 <= k <= n ==> Within(SplitFrom(pieces, n)[k], pieces)
    decreases n
  {
    if n > 0 {
      var rest := RestOf(pieces);
      SplitFromWithin(rest, n - 1);
      RestOfWithin(pieces);
      forall k | 0 <= k <= n
        ensures Within(SplitFrom(pieces, n)[k], pieces)
      {
        if k > 0 {
          SplitFromAt(pieces, n, k);
          WithinTrans(SplitFrom(rest, n - 1)[k - 1], rest, pieces);
        } else {
          PrefixWithin(RowOf(pieces), pieces);
        }
      }
    }
  }

  lemma WithinTrans(a: string, b: string, c: string)
    requires Within(a, b) && Within(b, c)
    ensures Within(a, c)
  {
  }

  lemma PrefixWithin(s: string, t: string)
    requires |s| <= |t| && t[..|s|] == s
    ensures Within(s, t)
  {
    forall c | c in s
      ensures c in t
    {
      var i :| 0 <= i < |s| && s[i] == c;
      assert t[i] == c;
    }
  }

  /** What one iteration keeps is a stretch of what it was given. */
  lemma RestOfWithin(pieces: CppString)
    ensures Within(RestOf(pieces), pieces)
  {
    var rest := RestOf(pieces);
    var pos := SizeAdd(Find(pieces, '/'), 1);
    assert rest == pieces[pos..pos + |rest|];
    forall c | c in rest
      ensures c in pieces
    {
      var i :| 0 <= i < |rest| && rest[i] == c;
      assert pieces[pos + i] == c;
    }
  }

  // ---------------------------------------------------------------------
  // The full split as the inverse of Join

  /** A string without '/' is a single field. */
  lemma {:induction false} SplitAllNoSlash(s: string)
    requires '/' !in s
    ensures SplitAll(s) == [s]
  {
    if s != [] {
      SplitAllNoSlash(s[1..]);
      assert s == [s[0]] + s[1..];
    }
  }

  /** The full split invents no character either. */
  lemma {:induction false} SplitAllWithin(s: string)
    ensures forall k :: 0 <= k < |SplitAll(s)| ==> Within(SplitAll(s)[k], s)
  {
    if s != [] {
      var rest := SplitAll(s[1..]);
      SplitAllWithin(s[1..]);
      assert s == [s[0]] + s[1..];
      forall k | 0 <= k < |SplitAll(s)|
        ensures Within(SplitAll(s)[k], s)
      {
        if s[0] == '/' {
          if k > 0 {
            assert SplitAll(s)[k] == rest[k - 1];
          }
        } else if k > 0 {
          assert SplitAll(s)[k] == rest[k];
        }
      }
    }
  }

  /** Splitting at a '/' that follows a '/'-free stretch yields that stretch
      and then the split of what follows. */
  lemma {:induction false} SplitAllAt(a: string, b: string)
    requires '/' !in a
    ensures SplitAll(a + ['/'] + b) == [a] + SplitAll(b)
  {
    var s := a + ['/'] + b;
    if a == [] {
      assert s[1..] == b;
    } else {
      assert s[1..] == a[1..] + ['/'] + b;
      SplitAllAt(a[1..], b);
      assert [a[0]] + a[1..] == a;
    }
  }

  /** The full split undoes Join on '/'-free fields. */
  lemma {:induction false} SplitAllJoin(fields: seq<string>)
    requires |fields| >= 1
    requires SlashFree(fields)
    ensures SplitAll(Join(fields)) == fields
  {
    if |fields| == 1 {
      SplitAllNoSlash(fields[0]);
    } else {
      SplitAllAt(fields[0], Join(fields[1..]));
      SplitAllJoin(fields[1..]);
    }
  }
}
