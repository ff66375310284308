/** Small string and sequence vocabulary shared by every part of the model:
    a result type for the source's assertion failures, prefix/suffix tests
    (Python's `startswith`/`endswith`), the regex character classes, the
    maximal-run scanner every regex group reduces to, `str.split`/`str.join`,
    and order-keeping de-duplication (one enumeration of a Python `set`). */
module Common {

  /** The outcome of an operation that the source guards with `assert`. */
  datatype Result<T, E> = Ok(value: T) | Err(error: E)

  /** A value that may be absent (Python's `None`). */
  datatype Option<T> = None | Some(value: T)

  /** Python's `s.startswith(p)`. */
  predicate IsPrefix<T(==)>(p: seq<T>, s: seq<T>) {
    |p| <= |s| && s[..|p|] == p
  }

  /** Python's `s.endswith(p)`. */
  predicate IsSuffix<T(==)>(p: seq<T>, s: seq<T>) {
    |p| <= |s| && s[|s| - |p|..] == p
  }

  /** Python's clamping slice `s[:n]`. */
  function Take<T>(s: seq<T>, n: nat): (r: seq<T>)
    ensures |r| == if n <= |s| then n else |s|
    ensures IsPrefix(r, s)
  {
    if n <= |s| then s[..n] else s
  }

  /** `\w` restricted to ASCII. */
  predicate IsWordChar(c: char) {
    ('a' <= c <= 'z') || ('A' <= c <= 'Z') || ('0' <= c <= '9') || c == '_'
  }

  /** `\d` restricted to ASCII. */
  predicate IsDigit(c: char) {
    '0' <= c <= '9'
  }

  /** `\s` restricted to ASCII: Python's whitespace of `str` patterns below
      0x80, which includes the separators 0x1C to 0x1F. */
  predicate IsSpace(c: char) {
    || c == ' ' || c == '\t' || c == '\n' || c == '\r' || c == '\U{0B}' || c == '\U{0C}'
    || ('\U{1C}' <= c <= '\U{1F}')
  }

  /** Every character of `s` belongs to the class `p`. */
  predicate All(s: string, p: char -> bool) {
    forall i | 0 <= i < |s| :: p(s[i])
  }

  /** Length of the longest prefix of `s` whose characters belong to `p`:
      what a greedy character-class group `[...]*` consumes. */
  function Span(s: string, p: char -> bool): (n: nat)
    ensures n <= |s|
    ensures forall i | 0 <= i < n :: p(s[i])
    ensures n < |s| ==> !p(s[n])
  {
    SpanFrom(s, p, 0)
  }

  function SpanFrom(s: string, p: char -> bool, i: nat): (n: nat)
    requires i <= |s|
    ensures n <= |s| - i
    ensures forall x | i <= x < i + n :: p(s[x])
    ensures i + n < |s| ==> !p(s[i + n])
    decreases |s| - i
  {
    if i == |s| || !p(s[i]) then 0 else 1 + SpanFrom(s, p, i + 1)
  }

  /** A run of class characters ended by a non-class character is exactly
      what `Span` consumes. */
  lemma SpanStopsAt(s: string, p: char -> bool, k: nat)
    requires k < |s| && !p(s[k])
    requires forall i | 0 <= i < k :: p(s[i])
    ensures Span(s, p) == k
  {
  }

  /** A run of class characters from `i` ended by a non-class character is
      exactly what `SpanFrom` consumes. */
  lemma {:induction false} SpanFromStopsAt(s: string, p: char -> bool, i: nat, k: nat)
    requires i <= k < |s| && !p(s[k])
    requires forall x | i <= x < k :: p(s[x])
    ensures SpanFrom(s, p, i) == k - i
    decreases k - i
  {
    if i < k {
      SpanFromStopsAt(s, p, i + 1, k);
    }
  }

  /** Position of the last occurrence of `c` in `s`, or -1 (`str.rfind`). */
  function LastIndex(s: string, c: char): (r: int)
    ensures -1 <= r < |s|
    ensures r >= 0 ==> s[r] == c
    ensures forall i | r < i < |s| :: s[i] != c
  {
    if |s| == 0 then -1
    else if s[|s| - 1] == c then |s| - 1
    else LastIndex(s[..|s| - 1], c)
  }

  /** An occurrence of `c` followed by `c`-free text is the last one. */
  lemma {:induction false} LastIndexAfter(a: string, b: string, c: char)
    requires |a| > 0 && a[|a| - 1] == c && c !in b
    ensures LastIndex(a + b, c) == |a| - 1
    decreases |b|
  {
    if |b| == 0 {
      assert a + b == a;
    } else {
      var s := a + b;
      assert s[|s| - 1] == b[|b| - 1];
      assert s[..|s| - 1] == a + b[..|b| - 1];
      LastIndexAfter(a, b[..|b| - 1], c);
    }
  }

  /** Python's `sep.join(parts)`. */
  function Join(parts: seq<string>, sep: string): string {
    if |parts| == 0 then ""
    else if |parts| == 1 then parts[0]
    else parts[0] + sep + Join(parts[1..], sep)
  }

  /** Joining one more part appends the separator and the part. */
  lemma {:induction false} JoinSnoc(parts: seq<string>, x: string, sep: string)
    ensures Join(parts + [x], sep) == if |parts| == 0 then x else Join(parts, sep) + sep + x
  {
    if |parts| > 1 {
      JoinSnoc(parts[1..], x, sep);
      assert (parts + [x])[1..] == parts[1..] + [x];
    } else if |parts| == 1 {
      assert (parts + [x])[1..] == [x];
    }
  }

  /** Python's `s.split(d)` for a one-character separator: always at least
      one piece, and no piece contains the separator. */
  function Split(s: string, d: char): (r: seq<string>)
    ensures |r| >= 1
    ensures forall k | 0 <= k < |r| :: d !in r[k]
  {
    if |s| == 0 then [""]
    else
      var rest := Split(s[1..], d);
      if s[0] == d then [""] + rest
      else [[s[0]] + rest[0]] + rest[1..]
  }

  /** Joining the pieces of a split gives the original text back. */
  lemma {:induction false} JoinSplit(s: string, d: char)
    ensures Join(Split(s, d), [d]) == s
  {
    if |s| > 0 {
      var rest := Split(s[1..], d);
      JoinSplit(s[1..], d);
      if s[0] == d {
        assert Split(s, d) == [""] + rest;
        assert ([""] + rest)[1..] == rest;
      } else if |rest| == 1 {
        assert Split(s, d) == [[s[0]] + rest[0]];
      } else {
        var parts := [[s[0]] + rest[0]] + rest[1..];
        assert Split(s, d) == parts;
        assert parts[1..] == rest[1..];
        assert Join(rest, [d]) == rest[0] + [d] + Join(rest[1..], [d]);
      }
    }
  }

  lemma {:induction false} SplitWithoutSeparator(a: string, d: char)
    requires d !in a
    ensures Split(a, d) == [a]
  {
    if |a| > 0 {
      SplitWithoutSeparator(a[1..], d);
      assert [a[0]] + a[1..] == a;
    }
  }

  lemma {:induction false} SplitAtSeparator(a: string, d: char, t: string)
    requires d !in a
    ensures Split(a + [d] + t, d) == [a] + Split(t, d)
  {
    var s := a + [d] + t;
    if |a| == 0 {
      assert s[1..] == t;
    } else {
      assert s[1..] == a[1..] + [d] + t;
      SplitAtSeparator(a[1..], d, t);
      assert [a[0]] + a[1..] == a;
    }
  }

  /** Splitting a join of separator-free pieces gives the pieces back. */
  lemma {:induction false} SplitJoin(parts: seq<string>, d: char)
    requires |parts| >= 1
    requires forall k | 0 <= k < |parts| :: d !in parts[k]
    ensures Split(Join(parts, [d]), d) == parts
  {
    if |parts| == 1 {
      SplitWithoutSeparator(parts[0], d);
    } else {
      SplitJoin(parts[1..], d);
      SplitAtSeparator(parts[0], d, Join(parts[1..], [d]));
      assert [parts[0]] + parts[1..] == parts;
    }
  }

  /** Every piece of a split only holds characters of the split text. */
  lemma {:induction false} SplitKeepsClass(s: string, d: char, p: char -> bool)
    requires All(s, p)
    ensures forall k | 0 <= k < |Split(s, d)| :: All(Split(s, d)[k], p)
  {
    if |s| > 0 {
      SplitKeepsClass(s[1..], d, p);
      var rest := Split(s[1..], d);
      assert All([s[0]] + rest[0], p);
    }
  }

  /** A join of class pieces with class separators stays in the class. */
  lemma {:induction false} JoinKeepsClass(parts: seq<string>, sep: string, p: char -> bool)
    requires forall k | 0 <= k < |parts| :: All(parts[k], p)
    requires All(sep, p)
    ensures All(Join(parts, sep), p)
  {
    if |parts| > 1 {
      JoinKeepsClass(parts[1..], sep, p);
      var j := parts[0] + sep + Join(parts[1..], sep);
      forall i | 0 <= i < |j| ensures p(j[i]) {
        if i < |parts[0]| {
          assert j[i] == parts[0][i];
        } else if i < |parts[0]| + |sep| {
          assert j[i] == sep[i - |parts[0]|];
        } else {
          assert j[i] == Join(parts[1..], sep)[i - |parts[0]| - |sep|];
        }
      }
    }
  }

  predicate NoDuplicates<T(==)>(s: seq<T>) {
    forall i, j | 0 <= i < j < |s| :: s[i] != s[j]
  }

  /** A list without repeats holds each value once or not at all. */
  lemma {:induction false} NoDuplicatesCount<T>(s: seq<T>, x: T)
    requires NoDuplicates(s)
    ensures multiset(s)[x] == if x in s then 1 else 0
  {
    if |s| > 0 {
      var t := s[1..];
      assert forall i | 0 <= i < |t| :: t[i] == s[i + 1];
      NoDuplicatesCount(t, x);
      assert s == [s[0]] + t;
      assert s[0] !in t;
    }
  }

  /** `list(set(s))`, enumerated in first-occurrence order (the order of a
      Python set is unspecified; this is one admissible enumeration). */
  function Dedup<T(==)>(s: seq<T>): (r: seq<T>)
    ensures NoDuplicates(r)
    ensures forall i | 0 <= i < |r| :: r[i] in s
    ensures forall i | 0 <= i < |s| :: s[i] in r
    ensures |r| <= |s|
  {
    if |s| == 0 then []
    else
      var r := Dedup(s[..|s| - 1]);
      assert forall i | 0 <= i < |s| - 1 :: s[i] == s[..|s| - 1][i];
      if s[|s| - 1] in r then r else r + [s[|s| - 1]]
  }

  /** The lists of `xss` one after another: repeated `list.extend`. */
  function Flatten<T>(xss: seq<seq<T>>): seq<T> {
    if |xss| == 0 then [] else Flatten(xss[..|xss| - 1]) + xss[|xss| - 1]
  }

  lemma {:induction false} FlattenConcat<T>(a: seq<seq<T>>, b: seq<seq<T>>)
    ensures Flatten(a + b) == Flatten(a) + Flatten(b)
  {
    if |b| > 0 {
      var c := a + b;
      assert c[..|c| - 1] == a + b[..|b| - 1] && c[|c| - 1] == b[|b| - 1];
      FlattenConcat(a, b[..|b| - 1]);
    } else {
      assert a + b == a;
    }
  }

  lemma {:induction false} FlattenMember<T>(xss: seq<seq<T>>, x: T)
    ensures x in Flatten(xss) <==> exists k | 0 <= k < |xss| :: x in xss[k]
  {
    if |xss| > 0 {
      var init := xss[..|xss| - 1];
      FlattenMember(init, x);
      assert forall k | 0 <= k < |init| :: init[k] == xss[k];
    }
  }

  /** The positions of the lists of `xss` that hold `x`. */
  function Holding<T(==)>(xss: seq<seq<T>>, x: T): set<nat> {
    set k: nat | k < |xss| && x in xss[k]
  }

  /** When no list repeats a value, the flattening holds each value once
      per list holding it. */
  lemma {:induction false} FlattenCount<T>(xss: seq<seq<T>>, x: T)
    requires forall k | 0 <= k < |xss| :: NoDuplicates(xss[k])
    ensures multiset(Flatten(xss))[x] == |Holding(xss, x)|
  {
    if |xss| == 0 {
      assert Holding(xss, x) == {};
    } else {
      var n := |xss| - 1;
      var init := xss[..n];
      assert forall k | 0 <= k < n :: init[k] == xss[k];
      FlattenCount(init, x);
      NoDuplicatesCount(xss[n], x);
      HoldingLast(xss, x);
      assert multiset(Flatten(xss)) == multiset(Flatten(init)) + multiset(xss[n]);
    }
  }

  /** The last list adds one position to `Holding` when it holds `x`. */
  lemma HoldingLast<T>(xss: seq<seq<T>>, x: T)
    requires |xss| > 0
    ensures |Holding(xss, x)| == |Holding(xss[..|xss| - 1], x)| + if x in xss[|xss| - 1] then 1 else 0
  {
    var n := |xss| - 1;
    var all, before := Holding(xss, x), Holding(xss[..n], x);
    var last: set<nat> := if x in xss[n] then {n} else {};
    forall k: nat ensures k in all <==> k in before + last {
      if k < n {
        assert xss[..n][k] == xss[k];
      }
    }
    assert all == before + last;
    assert before * last == {};
  }

  /** `f` applied to every element, in order. */
  function MapSeq<A, B>(f: A -> B, xs: seq<A>): (r: seq<B>)
    ensures |r| == |xs|
    ensures forall i | 0 <= i < |xs| :: r[i] == f(xs[i])
  {
    seq(|xs|, i requires 0 <= i < |xs| => f(xs[i]))
  }

  lemma MapSeqConcat<A, B>(f: A -> B, a: seq<A>, b: seq<A>)
    ensures MapSeq(f, a + b) == MapSeq(f, a) + MapSeq(f, b)
  {
    var l, r := MapSeq(f, a + b), MapSeq(f, a) + MapSeq(f, b);
    forall i | 0 <= i < |l| ensures l[i] == r[i] {
      if i < |a| {
        assert (a + b)[i] == a[i];
      } else {
        assert (a + b)[i] == b[i - |a|];
      }
    }
  }

  /** The flattening around the list at position `k`. */
  lemma FlattenAround<T>(xss: seq<seq<T>>, k: nat)
    requires k < |xss|
    ensures Flatten(xss) == Flatten(xss[..k]) + xss[k] + Flatten(xss[k + 1..])
  {
    var pre, mid, post := xss[..k], [xss[k]], xss[k + 1..];
    SplitAt(xss, k);
    FlattenConcat(pre, mid + post);
    FlattenConcat(mid, post);
    FlattenSingle(xss[k]);
  }

  /** A sequence is its prefix, its element at `k` and its suffix. */
  lemma SplitAt<T>(s: seq<T>, k: nat)
    requires k < |s|
    ensures s == s[..k] + ([s[k]] + s[k + 1..])
  {
    assert s[k..] == [s[k]] + s[k + 1..];
    assert s == s[..k] + s[k..];
  }

  lemma FlattenSingle<T>(xs: seq<T>)
    ensures Flatten([xs]) == xs
  {
    assert [xs][..0] == [];
  }

  lemma MapSeqSlices<A, B>(f: A -> B, xs: seq<A>, k: nat)
    requires k < |xs|
    ensures MapSeq(f, xs)[..k] == MapSeq(f, xs[..k])
    ensures MapSeq(f, xs)[k + 1..] == MapSeq(f, xs[k + 1..])
  {
  }
}
