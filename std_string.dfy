/** The two members of std::string that the FEN parser relies on, `find(char)` and
    `substr(pos, count)`, together with the unsigned `size_t` arithmetic its callers
    do on their results (`find(...) + 1`, `size() - 1`), which wraps modulo 2^64. */
module StdString {

  /** 2^64: `size_t` arithmetic is taken modulo this. */
  const SIZE_MOD: int := 0x1_0000_0000_0000_0000

  /** std::string::npos, the largest `size_t`, returned by `find` on a miss. */
  const NPOS: nat := SIZE_MOD - 1

  /** A std::string: `max_size()` keeps its length below npos. */
  type CppString = s: string | |s| < NPOS

  /** Unsigned `a + b` on `size_t`: past the top of the range it wraps to 0. */
  function SizeAdd(a: nat, b: nat): (r: nat)
    requires a < SIZE_MOD && b < SIZE_MOD
    ensures r < SIZE_MOD
  {
    if a + b < SIZE_MOD then a + b else a + b - SIZE_MOD
  }

  /** Unsigned `a - b` on `size_t`: below zero it wraps to the top of the range. */
  function SizeSub(a: nat, b: nat): (r: nat)
    requires a < SIZE_MOD && b < SIZE_MOD
    ensures r < SIZE_MOD
  {
    if b <= a then a - b else a + SIZE_MOD - b
  }

  function Min(a: nat, b: nat): nat
  {
    if a <= b then a else b
  }

  /** `s.find(c, from)`: the first position at or after `from` that holds `c`,
      or NPOS when there is none. */
  function FindFrom(s: string, c: char, from: nat): (r: nat)
    requires from <= |s|
    ensures (r == NPOS && c !in s[from..]) || (from <= r < |s| && s[r] == c && c !in s[from..r])
    decreases |s| - from
  {
    if from == |s| then NPOS
    else if s[from] == c then from
    else FindFrom(s, c, from + 1)
  }

  /** `s.find(c)`. */
  function Find(s: CppString, c: char): (r: nat)
    ensures c !in s ==> r == NPOS
    ensures c in s ==> r < |s| && s[r] == c && c !in s[..r]
  {
    FindFrom(s, c, 0)
  }

  /** `s.substr(pos, count)`: at most `count` characters starting at `pos`. The
      library throws `out_of_range` when `pos > size()`; every call in the model
      proves that it does not happen. */
  function Substr(s: string, pos: nat, count: nat): (r: string)
    requires pos <= |s|
    ensures |r| <= |s| - pos
  {
    s[pos .. pos + Min(count, |s| - pos)]
  }

  /** In a string short enough for std::string, `find` returns exactly the index
      of the first occurrence when `c` sits right after a stretch free of `c`. */
  lemma FindAfter(a: string, c: char, b: string)
    requires c !in a
    requires |a| + 1 + |b| < NPOS
    ensures Find(a + [c] + b, c) == |a|
  {
    var s := a + [c] + b;
    assert s[|a|] == c;
    assert s[..|a|] == a;
  }
}
