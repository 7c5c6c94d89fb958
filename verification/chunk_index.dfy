/**
 * The order in which merge lays chunks out.  A chunk's name is compared by
 * the number written between its first '-' and the next '-' (the chunk
 * names the client sends are `<fileHash>-<index>`).
 */
module ChunkIndex {

  const DASH: char := '-'

  /** JavaScript's `String.prototype.indexOf` for one character. */
  function FirstIndexOf(s: string, c: char): (r: int)
    ensures -1 <= r < |s|
    ensures r == -1 <==> c !in s
    ensures r >= 0 ==> s[r] == c && c !in s[..r]
  {
    if s == [] then -1
    else if s[0] == c then 0
    else
      var r := FirstIndexOf(s[1..], c);
      if r < 0 then -1
      else
        assert s[..r + 1] == [s[0]] + s[1..][..r];
        r + 1
  }

  /** JavaScript's `String.prototype.split` with a one-character separator. */
  function Split(s: string, sep: char): (parts: seq<string>)
    ensures |parts| >= 1
    ensures sep !in s ==> parts == [s]
    ensures sep in s ==> |parts| >= 2
    ensures forall k :: 0 <= k < |parts| ==> sep !in parts[k]
    decreases |s|
  {
    var i := FirstIndexOf(s, sep);
    if i < 0 then [s] else [s[..i]] + Split(s[i + 1..], sep)
  }

  /** `Array.prototype.join` with a one-character separator. */
  function Join(parts: seq<string>, sep: char): (s: string)
    requires |parts| >= 1
  {
    if |parts| == 1 then parts[0] else parts[0] + [sep] + Join(parts[1..], sep)
  }

  lemma JoinCons(head: string, tail: seq<string>, sep: char)
    requires |tail| >= 1
    ensures Join([head] + tail, sep) == head + [sep] + Join(tail, sep)
  {
    assert ([head] + tail)[1..] == tail;
  }

  /** Splitting loses nothing: joining the parts back gives the name. */
  lemma {:induction false} JoinSplit(s: string, sep: char)
    ensures Join(Split(s, sep), sep) == s
    decreases |s|
  {
    var i := FirstIndexOf(s, sep);
    if i >= 0 {
      var rest := s[i + 1..];
      SplitAtFirst(s, sep);
      JoinSplit(rest, sep);
      JoinCons(s[..i], Split(rest, sep), sep);
    }
  }

  /** One step of `Split`: the text before the first separator, then the parts of the rest. */
  lemma SplitAtFirst(s: string, sep: char)
    requires sep in s
    ensures var i := FirstIndexOf(s, sep);
      && Split(s, sep) == [s[..i]] + Split(s[i + 1..], sep)
      && s == s[..i] + [sep] + s[i + 1..]
  {
    var i := FirstIndexOf(s, sep);
    CutAt(s, i);
  }

  lemma CutAt(s: string, i: nat)
    requires i < |s|
    ensures s == s[..i] + [s[i]] + s[i + 1..]
  {
  }

  predicate IsDigit(c: char)
  {
    '0' <= c <= '9'
  }

  /** A non-empty run of decimal digits: the one shape `Number` reads as an index here. */
  predicate IsDecimal(s: string)
  {
    s != [] && forall i :: 0 <= i < |s| ==> IsDigit(s[i])
  }

  function DigitValue(c: char): (d: nat)
    ensures d < 10
  {
    if IsDigit(c) then c as int - '0' as int else 0
  }

  /** The value `Number` gives a run of decimal digits (leading zeros allowed). */
  function DecimalValue(s: string): (n: nat)
  {
    if s == [] then 0 else DecimalValue(s[..|s| - 1]) * 10 + DigitValue(s[|s| - 1])
  }

  /** The shortest decimal spelling of `n`. */
  function DecimalString(n: nat): (s: string)
    ensures IsDecimal(s)
  {
    if n < 10 then ['0' + n as char]
    else DecimalString(n / 10) + ['0' + (n % 10) as char]
  }

  lemma {:induction false} DecimalRoundTrip(n: nat)
    ensures DecimalValue(DecimalString(n)) == n
  {
    if n >= 10 {
      DecimalRoundTrip(n / 10);
      var s := DecimalString(n);
      assert s[..|s| - 1] == DecimalString(n / 10);
    }
  }

  /**
   * A chunk name the merge comparator can read: its second '-'-separated
   * field is a non-empty run of decimal digits.  `Number` reads other
   * fields too ("" as 0, "1e3" as 1000, "0x1f" as 31, " 7" as 7), and
   * gives NaN for a name without '-' or a field that is not a number;
   * those readings are not modelled.
   */
  predicate WellNamed(name: string)
  {
    var parts := Split(name, DASH);
    |parts| >= 2 && IsDecimal(parts[1])
  }

  /** `Number(name.split('-')[1])` for a well-named chunk. */
  function IndexOf(name: string): (i: nat)
  {
    var parts := Split(name, DASH);
    if |parts| >= 2 then DecimalValue(parts[1]) else 0
  }

  /** The name the client gives chunk `i` of the file with content hash `fileHash`. */
  function ChunkName(fileHash: string, i: nat): (name: string)
  {
    fileHash + [DASH] + DecimalString(i)
  }

  /** The comparator reads back the index of every chunk name the client builds. */
  lemma ChunkNameIndex(fileHash: string, i: nat)
    requires DASH !in fileHash
    ensures WellNamed(ChunkName(fileHash, i))
    ensures IndexOf(ChunkName(fileHash, i)) == i
  {
    var name := ChunkName(fileHash, i);
    var d := DecimalString(i);
    var k := FirstIndexOf(name, DASH);
    assert name[|fileHash|] == DASH;
    assert name[..|fileHash|] == fileHash;
    assert k == |fileHash|;
    assert name[k + 1..] == d;
    assert DASH !in d by {
      forall j | 0 <= j < |d| ensures d[j] != DASH { assert IsDigit(d[j]); }
    }
    assert Split(name, DASH) == [fileHash] + Split(d, DASH);
    assert Split(d, DASH) == [d];
    DecimalRoundTrip(i);
  }

  /** Ascending by index, as the comparator `a.split('-')[1] - b.split('-')[1]` orders them. */
  predicate SortedByIndex(names: seq<string>)
  {
    SortedBy(names, IndexOf)
  }

  /** No two names carry the same index. */
  predicate DistinctIndices(names: seq<string>)
  {
    DistinctBy(names, IndexOf)
  }

  /** No two names share a `key`. */
  predicate DistinctBy(names: seq<string>, key: string -> nat)
  {
    forall i, j :: 0 <= i < j < |names| ==> key(names[i]) != key(names[j])
  }

  /** Ascending by `key`: what `sort` produces with the comparator `(x, y) => key(x) - key(y)`. */
  predicate SortedBy(names: seq<string>, key: string -> nat)
  {
    forall i, j :: 0 <= i < j < |names| ==> key(names[i]) <= key(names[j])
  }

  /**
   * `chunkPaths.sort(...)`: sorts the names in place by index.
   */
  method SortByIndex(a: array<string>)
    modifies a
    ensures SortedByIndex(a[..])
    ensures multiset(a[..]) == multiset(old(a[..]))
  {
    SortBy(a, IndexOf);
  }

  /**
   * `Array.prototype.sort` with a numeric-key comparator, as an insertion
   * sort that moves an element left only past strictly larger keys, so it
   * is stable like the engine's sort.
   */
  method SortBy(a: array<string>, key: string -> nat)
    modifies a
    ensures SortedBy(a[..], key)
    ensures multiset(a[..]) == multiset(old(a[..]))
  {
    var i := 0;
    while i < a.Length
      invariant 0 <= i <= a.Length
      invariant SortedBy(a[..i], key)
      invariant multiset(a[..]) == multiset(old(a[..]))
    {
      InsertLast(a, i, key);
      i := i + 1;
    }
    assert a[..] == a[..a.Length];
  }

  /** One step of the sort: moves `a[i]` left into the sorted prefix `a[..i]`. */
  method InsertLast(a: array<string>, i: nat, key: string -> nat)
    requires i < a.Length
    requires SortedBy(a[..i], key)
    modifies a
    ensures SortedBy(a[..i + 1], key)
    ensures multiset(a[..i + 1]) == multiset(old(a[..i + 1]))
    ensures a[i + 1..] == old(a[i + 1..])
    ensures multiset(a[..]) == multiset(old(a[..]))
  {
    var j := i;
    InsertingStart(a[..], i, key);
    assert SameMultisetAndSuffix(a[..], old(a[..]), i + 1);
    while j > 0 && key(a[j - 1]) > key(a[j])
      invariant 0 <= j <= i
      invariant Inserting(a[..], j, i, key)
      invariant SameMultisetAndSuffix(a[..], old(a[..]), i + 1)
    {
      SwapDown(a, j, i, key, old(a[..]));
      j := j - 1;
    }
    InsertingDone(a[..], j, i, key);
    SuffixKeptPrefixPermuted(a[..], old(a[..]), i + 1);
  }

  /** Moves the element being inserted from `j` to `j - 1`, past a neighbour with a larger key. */
  method SwapDown(a: array<string>, j: nat, i: nat, key: string -> nat, ghost o: seq<string>)
    requires 0 < j && Inserting(a[..], j, i, key) && key(a[j - 1]) > key(a[j])
    requires SameMultisetAndSuffix(a[..], o, i + 1)
    modifies a
    ensures Inserting(a[..], j - 1, i, key)
    ensures SameMultisetAndSuffix(a[..], o, i + 1)
  {
    ghost var before := a[..];
    Swap(a, j - 1);
    InsertingStep(before, j, i, key);
    SwapKeepsSuffix(before, o, j, i + 1);
  }

  /** `s` is a permutation of `o` that leaves `o[n..]` in place. */
  ghost predicate SameMultisetAndSuffix(s: seq<string>, o: seq<string>, n: nat)
  {
    && n <= |s| == |o|
    && s[n..] == o[n..]
    && multiset(s) == multiset(o)
  }

  lemma SwapKeepsSuffix(s: seq<string>, o: seq<string>, j: nat, n: nat)
    requires 0 < j < n && SameMultisetAndSuffix(s, o, n)
    ensures SameMultisetAndSuffix(s[j - 1 := s[j]][j := s[j - 1]], o, n)
  {
    var t := s[j - 1 := s[j]][j := s[j - 1]];
    assert t[n..] == s[n..];
    assert multiset(t) == multiset(s);
  }

  /** A permutation that leaves `o[n..]` in place permutes the prefix `o[..n]`. */
  lemma SuffixKeptPrefixPermuted(s: seq<string>, o: seq<string>, n: nat)
    requires SameMultisetAndSuffix(s, o, n)
    ensures multiset(s[..n]) == multiset(o[..n])
  {
    assert s == s[..n] + s[n..];
    assert o == o[..n] + o[n..];
    forall x
      ensures multiset(s[..n])[x] == multiset(o[..n])[x]
    {
      assert (multiset(s[..n]) + multiset(s[n..]))[x] == (multiset(o[..n]) + multiset(o[n..]))[x];
    }
  }

  /**
   * While the element being inserted sits at `j`: the other elements of
   * `s[..i + 1]` are in order, and every element after `j` has a larger key.
   */
  ghost predicate Inserting(s: seq<string>, j: nat, i: nat, key: string -> nat)
  {
    && j <= i < |s|
    && (forall x, y :: 0 <= x < y <= i && x != j && y != j ==> key(s[x]) <= key(s[y]))
    && (forall y :: j < y <= i ==> key(s[j]) < key(s[y]))
  }

  lemma InsertingStart(s: seq<string>, i: nat, key: string -> nat)
    requires i < |s| && SortedBy(s[..i], key)
    ensures Inserting(s, i, i, key)
  {
    forall x, y | 0 <= x < y <= i && x != i && y != i
      ensures key(s[x]) <= key(s[y])
    {
      assert s[x] == s[..i][x] && s[y] == s[..i][y];
    }
  }

  lemma InsertingStep(s: seq<string>, j: nat, i: nat, key: string -> nat)
    requires 0 < j && Inserting(s, j, i, key) && key(s[j - 1]) > key(s[j])
    ensures Inserting(s[j - 1 := s[j]][j := s[j - 1]], j - 1, i, key)
  {
    var t := s[j - 1 := s[j]][j := s[j - 1]];
    forall x, y | 0 <= x < y <= i && x != j - 1 && y != j - 1
      ensures key(t[x]) <= key(t[y])
    {
      if y == j {
        if x < j - 1 {
          assert key(s[x]) <= key(s[j - 1]);
        }
      } else if x == j {
        assert key(s[j - 1]) <= key(s[y]);
      }
    }
  }

  lemma InsertingDone(s: seq<string>, j: nat, i: nat, key: string -> nat)
    requires Inserting(s, j, i, key)
    requires j == 0 || key(s[j - 1]) <= key(s[j])
    ensures SortedBy(s[..i + 1], key)
  {
    var t := s[..i + 1];
    forall x, y | 0 <= x < y < |t|
      ensures key(t[x]) <= key(t[y])
    {
      assert t[x] == s[x] && t[y] == s[y];
      if y == j && x < j - 1 {
        assert key(s[x]) <= key(s[j - 1]);
      }
    }
  }

  /** Exchanges `a[k]` and `a[k + 1]`. */
  method Swap(a: array<string>, k: nat)
    requires k + 1 < a.Length
    modifies a
    ensures a[k] == old(a[k + 1]) && a[k + 1] == old(a[k])
    ensures forall m :: 0 <= m < a.Length && m != k && m != k + 1 ==> a[m] == old(a[m])
    ensures a[..] == old(a[..])[k := old(a[k + 1])][k + 1 := old(a[k])]
    ensures multiset(a[..]) == multiset(old(a[..]))
  {
    a[k], a[k + 1] := a[k + 1], a[k];
  }

  /** Each name occurs once, as in a directory listing. */
  predicate NoDuplicates(names: seq<string>)
  {
    forall i, j :: 0 <= i < j < |names| ==> names[i] != names[j]
  }

  lemma {:induction false} NoDuplicatesCount(a: seq<string>, x: string)
    requires NoDuplicates(a)
    ensures multiset(a)[x] <= 1
  {
    if a != [] {
      var n := |a|;
      assert a == a[..n - 1] + [a[n - 1]];
      NoDuplicatesCount(a[..n - 1], x);
      if a[n - 1] == x {
        assert x !in a[..n - 1];
      }
    }
  }

  /** A permutation of a listing without repeats has no repeats: sorting keeps every entry once. */
  lemma PermutationKeepsNoDuplicates(a: seq<string>, b: seq<string>)
    requires multiset(a) == multiset(b) && NoDuplicates(a)
    ensures NoDuplicates(b)
  {
    forall i, j | 0 <= i < j < |b| ensures b[i] != b[j] {
      if b[i] == b[j] {
        var x := b[i];
        assert b == b[..j] + b[j..];
        assert x in b[..j] && x in b[j..];
        assert multiset(b)[x] == multiset(b[..j])[x] + multiset(b[j..])[x] >= 2;
        NoDuplicatesCount(a, x);
        assert false;
      }
    }
  }

  /**
   * When no two chunks share an index, the sorted order is the only one:
   * whatever order the directory listing came in, merge writes the same
   * sequence of chunks.
   */
  lemma {:induction false} SortedOrderUnique(a: seq<string>, b: seq<string>)
    requires NoDuplicates(a) && NoDuplicates(b)
    requires forall x :: x in a <==> x in b
    requires SortedByIndex(a) && SortedByIndex(b)
    requires DistinctIndices(a)
    ensures a == b
  {
    assert b != [] ==> b[0] in a;
    if a != [] {
      SameFirst(a, b);
      forall x ensures x in a[1..] <==> x in b[1..] {
        TailMembers(a, x);
        TailMembers(b, x);
      }
      SortedOrderUnique(a[1..], b[1..]);
      assert a == [a[0]] + a[1..];
      assert b == [b[0]] + b[1..];
    }
  }

  lemma TailMembers(a: seq<string>, x: string)
    requires a != [] && NoDuplicates(a)
    ensures x in a[1..] <==> x in a && x != a[0]
  {
    assert a == [a[0]] + a[1..];
    if x in a[1..] {
      var i :| 0 <= i < |a[1..]| && a[1..][i] == x;
      assert a[i + 1] == x;
    }
  }

  /** Both sorted orders start with the chunk of least index. */
  lemma SameFirst(a: seq<string>, b: seq<string>)
    requires a != []
    requires forall x :: x in a <==> x in b
    requires SortedByIndex(a) && SortedByIndex(b)
    requires DistinctIndices(a)
    ensures b != [] && a[0] == b[0]
  {
    assert a[0] in b;
    assert b[0] in a;
    var k :| 0 <= k < |a| && a[k] == b[0];
    var m :| 0 <= m < |b| && b[m] == a[0];
    assert IndexOf(a[0]) <= IndexOf(a[k]);
    assert IndexOf(b[0]) <= IndexOf(b[m]);
  }
}
