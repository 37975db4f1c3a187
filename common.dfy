/** Vocabulary shared by every script: optional values, the JavaScript string
    operations the scripts rely on (`includes`, `startsWith`, `replace` of a
    literal, `split` on one character, `join`, `trim`, `slice`), the
    insertion-ordered `Set` and the ordinal string order that stands in for
    JavaScript's default sort and `localeCompare`. */
module Common {

  datatype Option<T> = None | Some(value: T)

  /** JavaScript truthiness of an optional string field: present and non-empty. */
  predicate Truthy(o: Option<string>) {
    o.Some? && o.value != ""
  }

  /** `field || fallback` on an optional string field. */
  function OrElse(o: Option<string>, fallback: string): (r: string)
    ensures Truthy(o) ==> r == o.value
    ensures !Truthy(o) ==> r == fallback
  {
    if Truthy(o) then o.value else fallback
  }

  /** The characters matched by `\s` in a JavaScript regular expression, which are
      also the characters `String.prototype.trim` removes. */
  predicate IsSpace(c: char) {
    ('\t' <= c <= '\r') || c == ' ' || c == '\U{00A0}' || c == '\U{1680}'
    || ('\U{2000}' <= c <= '\U{200A}') || c == '\U{2028}' || c == '\U{2029}'
    || c == '\U{202F}' || c == '\U{205F}' || c == '\U{3000}' || c == '\U{FEFF}'
  }

  /** ASCII lower-casing of one character (the model's stand-in for `toLowerCase`). */
  function LowerChar(c: char): char {
    if 'A' <= c <= 'Z' then (c as int + 32) as char else c
  }

  function Lower(s: string): (r: string)
    ensures |r| == |s|
    ensures forall i :: 0 <= i < |s| ==> r[i] == LowerChar(s[i])
    ensures forall i :: 0 <= i < |r| ==> !('A' <= r[i] <= 'Z')
  {
    seq(|s|, i requires 0 <= i < |s| => LowerChar(s[i]))
  }

  /** Growing a prefix of ms by one element, behind some fixed front part. */
  lemma SnocPrefix<T>(front: seq<T>, ms: seq<T>, k: nat)
    requires k < |ms|
    ensures front + ms[..k + 1] == (front + ms[..k]) + [ms[k]]
  {
    assert ms[..k + 1] == ms[..k] + [ms[k]];
  }

  lemma SplitLast<T>(s: seq<T>)
    requires s != []
    ensures s == s[..|s| - 1] + [s[|s| - 1]]
  {
  }

  lemma AppendInit<T>(a: seq<T>, b: seq<T>)
    requires b != []
    ensures (a + b)[..|a + b| - 1] == a + b[..|b| - 1] && (a + b)[|a + b| - 1] == b[|b| - 1]
  {
  }

  lemma PrefixSnoc<T>(s: seq<T>, j: nat)
    requires j < |s|
    ensures s[..j + 1][..j] == s[..j] && s[..j + 1][j] == s[j]
  {
  }

  /** `s.startsWith(p)`. */
  predicate StartsWith(s: string, p: string) {
    |p| <= |s| && s[..|p|] == p
  }

  /** `s.includes(p)`: p occurs somewhere in s. */
  predicate Contains(s: string, p: string)
    decreases |s|
  {
    StartsWith(s, p) || (|s| > 0 && Contains(s[1..], p))
  }

  /** p occurs at position k of s. */
  lemma {:induction false} ContainsAt(s: string, p: string, k: nat)
    requires k <= |s| && StartsWith(s[k..], p)
    ensures Contains(s, p)
    decreases k
  {
    if k > 0 {
      assert s[1..][k - 1..] == s[k..];
      ContainsAt(s[1..], p, k - 1);
    }
  }

  /** `s.indexOf(p)`, with `None` for -1. */
  function IndexOf(s: string, p: string): (r: Option<nat>)
    decreases |s|
    ensures r.Some? <==> Contains(s, p)
    ensures r.Some? ==> r.value + |p| <= |s| && s[r.value..r.value + |p|] == p
    ensures r.Some? ==> forall j :: 0 <= j < r.value ==> !StartsWith(s[j..], p)
  {
    if StartsWith(s, p) then Some(0)
    else if s == [] then None
    else match IndexOf(s[1..], p)
      case None => None
      case Some(k) =>
        assert forall j :: 1 <= j <= k ==> s[j..] == s[1..][j - 1..];
        Some(k + 1)
  }

  /** `s.replace(p, q)` with a literal pattern: only the first occurrence is replaced. */
  function ReplaceFirst(s: string, p: string, q: string): (r: string)
    ensures !Contains(s, p) ==> r == s
    ensures Contains(s, p) ==> exists i :: IndexOf(s, p) == Some(i) && r == s[..i] + q + s[i + |p|..]
  {
    match IndexOf(s, p)
    case None => s
    case Some(i) => s[..i] + q + s[i + |p|..]
  }

  /** `s.split(c)` for a one-character separator: never empty, "" gives [""]. */
  function Split(s: string, c: char): (r: seq<string>)
    ensures |r| >= 1
    ensures forall k :: 0 <= k < |r| ==> c !in r[k]
  {
    if s == [] then [""]
    else
      var rest := Split(s[1..], c);
      if s[0] == c then [""] + rest else [[s[0]] + rest[0]] + rest[1..]
  }

  /** `parts.join(sep)`. */
  function Join(parts: seq<string>, sep: string): string {
    if |parts| == 0 then ""
    else if |parts| == 1 then parts[0]
    else parts[0] + sep + Join(parts[1..], sep)
  }

  /** Splitting on a character and joining with it again gives the text back. */
  lemma {:induction false} JoinSplit(s: string, c: char)
    ensures Join(Split(s, c), [c]) == s
  {
    if s != [] {
      var rest := Split(s[1..], c);
      JoinSplit(s[1..], c);
      if s[0] == c {
        assert Split(s, c) == [""] + rest;
        assert ([""] + rest)[1..] == rest;
      } else {
        var r := Split(s, c);
        assert r == [[s[0]] + rest[0]] + rest[1..];
        if |rest| == 1 {
          assert r == [[s[0]] + rest[0]];
        } else {
          assert r[1..] == rest[1..];
          assert Join(rest, [c]) == rest[0] + [c] + Join(rest[1..], [c]);
        }
      }
    }
  }

  /** Joining is injective on lists of non-empty separator-free strings, so comparing
      the joined texts compares the lists. */
  lemma {:induction false} JoinInjective(a: seq<string>, b: seq<string>, c: char)
    requires forall k :: 0 <= k < |a| ==> a[k] != "" && c !in a[k]
    requires forall k :: 0 <= k < |b| ==> b[k] != "" && c !in b[k]
    requires Join(a, [c]) == Join(b, [c])
    ensures a == b
  {
    if |a| == 0 || |b| == 0 {
      assert |a| > 0 ==> |Join(a, [c])| > 0 by { if |a| > 0 { JoinNonEmpty(a, c); } }
      assert |b| > 0 ==> |Join(b, [c])| > 0 by { if |b| > 0 { JoinNonEmpty(b, c); } }
    } else {
      var ja, jb := Join(a, [c]), Join(b, [c]);
      JoinHead(a, c);
      JoinHead(b, c);
      if |a[0]| != |b[0]| {
        assert false;
      } else {
        assert a[0] == ja[..|a[0]|] == b[0];
        if |a| != |b| && (|a| == 1 || |b| == 1) {
          assert false;
        } else if |a| > 1 {
          assert ja[|a[0]| + 1..] == Join(a[1..], [c]);
          assert jb[|b[0]| + 1..] == Join(b[1..], [c]);
          JoinInjective(a[1..], b[1..], c);
          assert a == [a[0]] + a[1..];
          assert b == [b[0]] + b[1..];
        }
      }
    }
  }

  lemma {:induction false} JoinNonEmpty(a: seq<string>, c: char)
    requires |a| > 0 && a[0] != ""
    ensures |Join(a, [c])| > 0
  {
  }

  /** The joined text starts with the first part, followed by the separator when
      more parts follow. */
  lemma {:induction false} JoinHead(a: seq<string>, c: char)
    requires |a| > 0
    ensures Join(a, [c])[..|a[0]|] == a[0]
    ensures |a| == 1 ==> Join(a, [c]) == a[0]
    ensures |a| > 1 ==> |Join(a, [c])| > |a[0]| && Join(a, [c])[|a[0]|] == c
    ensures |a| > 1 ==> Join(a, [c])[|a[0]| + 1..] == Join(a[1..], [c])
  {
    if |a| > 1 {
      var j := Join(a, [c]);
      assert j == a[0] + [c] + Join(a[1..], [c]);
    }
  }

  /** `s.trimStart()`: drops the leading white space and nothing else. */
  function TrimStart(s: string): (r: string)
    ensures |r| <= |s| && r == s[|s| - |r|..]
    ensures forall i :: 0 <= i < |s| - |r| ==> IsSpace(s[i])
    ensures r == [] || !IsSpace(r[0])
    ensures s != [] && IsSpace(s[0]) ==> |r| < |s|
  {
    if s != [] && IsSpace(s[0]) then TrimStart(s[1..]) else s
  }

  /** `s.trimEnd()`: drops the trailing white space and nothing else. */
  function TrimEnd(s: string): (r: string)
    ensures |r| <= |s| && r == s[..|r|]
    ensures forall i :: |r| <= i < |s| ==> IsSpace(s[i])
    ensures r == [] || !IsSpace(r[|r| - 1])
  {
    if s != [] && IsSpace(s[|s| - 1]) then TrimEnd(s[..|s| - 1]) else s
  }

  /** `s.trim()`. */
  function Trim(s: string): (r: string)
    ensures |r| <= |s|
    ensures r == [] || (!IsSpace(r[0]) && !IsSpace(r[|r| - 1]))
  {
    TrimEnd(TrimStart(s))
  }

  /** Trimming adds no character. */
  lemma {:induction false} TrimStartFree(s: string, c: char)
    requires c !in s
    ensures c !in TrimStart(s)
  {
    if s != [] && IsSpace(s[0]) {
      assert s == [s[0]] + s[1..];
      TrimStartFree(s[1..], c);
    }
  }

  lemma {:induction false} TrimEndFree(s: string, c: char)
    requires c !in s
    ensures c !in TrimEnd(s)
  {
    if s != [] && IsSpace(s[|s| - 1]) {
      SplitLast(s);
      TrimEndFree(s[..|s| - 1], c);
    }
  }

  lemma TrimFree(s: string, c: char)
    requires c !in s
    ensures c !in Trim(s)
  {
    TrimStartFree(s, c);
    TrimEndFree(TrimStart(s), c);
  }

  /** `s.slice(0, n)` / `s.substring(0, n)` for n >= 0. */
  function Take<T>(s: seq<T>, n: nat): (r: seq<T>)
    ensures |r| <= n && |r| <= |s|
    ensures |s| <= n ==> r == s
    ensures n < |s| ==> |r| == n
    ensures r == s[..|r|]
  {
    if |s| <= n then s else s[..n]
  }

  predicate NoDup<T(==)>(s: seq<T>) {
    forall i, j :: 0 <= i < j < |s| ==> s[i] != s[j]
  }

  /** A rearrangement of a duplicate-free sequence is duplicate-free. */
  lemma NoDupPermutation<T>(a: seq<T>, b: seq<T>)
    requires NoDup(a) && multiset(a) == multiset(b)
    ensures NoDup(b)
  {
    forall i, j | 0 <= i < j < |b| ensures b[i] != b[j] {
      if b[i] == b[j] {
        var x := b[i];
        assert b == b[..j] + [b[j]] + b[j + 1..];
        assert x in b[..j];
        assert multiset(b)[x] >= 2;
        NoDupAtMostOnce(a, x);
        assert false;
      }
    }
  }

  lemma {:induction false} NoDupAtMostOnce<T>(a: seq<T>, x: T)
    requires NoDup(a)
    ensures multiset(a)[x] <= 1
  {
    if a != [] {
      var init := a[..|a| - 1];
      assert NoDup(init);
      NoDupAtMostOnce(init, x);
      assert a == init + [a[|a| - 1]];
      assert a[|a| - 1] !in init;
    }
  }

  /** `s.filter(p)`: the elements that pass, in their order. */
  function Filter<T(!new)>(s: seq<T>, p: T -> bool): (r: seq<T>)
    ensures |r| <= |s|
    ensures forall x :: x in r <==> x in s && p(x)
  {
    if s == [] then []
    else
      assert s == s[..|s| - 1] + [s[|s| - 1]];
      Filter(s[..|s| - 1], p) + (if p(s[|s| - 1]) then [s[|s| - 1]] else [])
  }

  /** `s.map(f)`. */
  function Map<A, B>(s: seq<A>, f: A -> B): (r: seq<B>)
    ensures |r| == |s|
    ensures forall i :: 0 <= i < |s| ==> r[i] == f(s[i])
  {
    seq(|s|, i requires 0 <= i < |s| => f(s[i]))
  }

  /** Mapping one element more appends its image. */
  lemma MapSnoc<A, B>(s: seq<A>, f: A -> B, i: nat)
    requires i < |s|
    ensures Map(s[..i + 1], f) == Map(s[..i], f) + [f(s[i])]
  {
    var a, b := Map(s[..i + 1], f), Map(s[..i], f) + [f(s[i])];
    forall k | 0 <= k < |a| ensures a[k] == b[k] {
      if k < i {
        assert s[..i + 1][k] == s[..i][k];
      }
    }
  }

  /** `s.flatMap(f)`: the images of the elements, concatenated in order. */
  function FlatMap<A, B>(s: seq<A>, f: A -> seq<B>): seq<B> {
    if s == [] then [] else FlatMap(s[..|s| - 1], f) + f(s[|s| - 1])
  }

  lemma {:induction false} FlatMapAppend<A, B>(a: seq<A>, b: seq<A>, f: A -> seq<B>)
    ensures FlatMap(a + b, f) == FlatMap(a, f) + FlatMap(b, f)
  {
    if b == [] {
      assert a + b == a;
    } else {
      FlatMapAppend(a, b[..|b| - 1], f);
      AppendInit(a, b);
    }
  }

  lemma {:induction false} FlatMapMembers<A, B>(s: seq<A>, f: A -> seq<B>, y: B)
    ensures y in FlatMap(s, f) <==> exists x :: x in s && y in f(x)
  {
    if s != [] {
      var init, last := s[..|s| - 1], s[|s| - 1];
      FlatMapMembers(init, f, y);
      SplitLast(s);
      if y in FlatMap(s, f) {
        if y in FlatMap(init, f) {
          var x :| x in init && y in f(x);
          assert x in s;
        } else {
          assert last in s && y in f(last);
        }
      }
      if exists x :: x in s && y in f(x) {
        var x :| x in s && y in f(x);
        if x != last {
          assert x in init;
        }
      }
    }
  }

  /** `set.add(x)` on a JavaScript `Set`, seen as its insertion-ordered contents. */
  function SetAdd<T(==)>(acc: seq<T>, x: T): (r: seq<T>)
    ensures x in r
    ensures forall y :: y in r ==> y in acc || y == x
    ensures forall y :: y in acc ==> y in r
    ensures NoDup(acc) ==> NoDup(r)
  {
    if x in acc then acc else acc + [x]
  }

  /** Adding every element of xs, in order, to the `Set` whose contents are acc. */
  function AddAll<T(==)>(acc: seq<T>, xs: seq<T>): seq<T>
    decreases |xs|
  {
    if xs == [] then acc else SetAdd(AddAll(acc, xs[..|xs| - 1]), xs[|xs| - 1])
  }

  lemma AddAllSnoc<T>(acc: seq<T>, xs: seq<T>, j: nat)
    requires j < |xs|
    ensures AddAll(acc, xs[..j + 1]) == SetAdd(AddAll(acc, xs[..j]), xs[j])
  {
    PrefixSnoc(xs, j);
  }

  /** Adding two lists is adding the first, then the second. */
  lemma {:induction false} AddAllAppend<T>(acc: seq<T>, xs: seq<T>, ys: seq<T>)
    ensures AddAll(acc, xs + ys) == AddAll(AddAll(acc, xs), ys)
  {
    if ys == [] {
      assert xs + ys == xs;
    } else {
      AddAllAppend(acc, xs, ys[..|ys| - 1]);
      AppendInit(xs, ys);
    }
  }

  /** The contents of the `Set` after AddAll: the old contents first, in their
      order, then each new element at its first occurrence; never a duplicate. */
  lemma {:induction false} AddAllContents<T>(acc: seq<T>, xs: seq<T>)
    requires NoDup(acc)
    ensures NoDup(AddAll(acc, xs))
    ensures forall y :: y in AddAll(acc, xs) ==> y in acc || y in xs
    ensures forall y :: y in acc || y in xs ==> y in AddAll(acc, xs)
    ensures |acc| <= |AddAll(acc, xs)| && AddAll(acc, xs)[..|acc|] == acc
  {
    if xs != [] {
      var init := xs[..|xs| - 1];
      AddAllContents(acc, init);
      assert xs == init + [xs[|xs| - 1]];
    }
  }

  /** A `Set` that already holds every added element is left as it is. */
  lemma {:induction false} AddAllPresent<T>(acc: seq<T>, xs: seq<T>)
    requires forall y :: y in xs ==> y in acc
    ensures AddAll(acc, xs) == acc
  {
    if xs != [] {
      AddAllPresent(acc, xs[..|xs| - 1]);
    }
  }

  /** The duplicate-free contents, in first-occurrence order, of a sequence. */
  function Distinct<T(==)>(xs: seq<T>): (r: seq<T>)
    ensures NoDup(r)
    ensures forall y :: y in r ==> y in xs
    ensures forall y :: y in xs ==> y in r
  {
    AddAllContents([], xs);
    AddAll([], xs)
  }

  /** The distinct contents grow by the `Set` insertion of the next element. */
  lemma DistinctSnoc<T>(xs: seq<T>, x: T)
    ensures Distinct(xs + [x]) == SetAdd(Distinct(xs), x)
  {
    assert (xs + [x])[..|xs|] == xs;
  }

  /** A duplicate-free sequence is its own distinct contents. */
  lemma {:induction false} DistinctOfNoDup<T>(xs: seq<T>)
    requires NoDup(xs)
    ensures Distinct(xs) == xs
  {
    if xs != [] {
      var init := xs[..|xs| - 1];
      assert NoDup(init);
      DistinctOfNoDup(init);
      assert xs[|xs| - 1] !in init;
      assert init + [xs[|xs| - 1]] == xs;
    }
  }

  /** The sum, over the elements of ts, of their numbers of occurrences in xs. */
  function Occurrences<T(==)>(ts: seq<T>, xs: seq<T>): nat {
    if ts == [] then 0 else Occurrences(ts[..|ts| - 1], xs) + multiset(xs)[ts[|ts| - 1]]
  }

  /** Counting every element of xs under each of its distinct values counts xs. */
  lemma {:induction false} OccurrencesTotal<T>(ts: seq<T>, xs: seq<T>)
    requires NoDup(ts) && forall x :: x in xs ==> x in ts
    ensures Occurrences(ts, xs) == |xs|
  {
    if xs != [] {
      var init, x := xs[..|xs| - 1], xs[|xs| - 1];
      assert xs == init + [x];
      OccurrencesTotal(ts, init);
      OccurrencesSnoc(ts, init, x);
    } else {
      OccurrencesNone(ts);
    }
  }

  lemma {:induction false} OccurrencesNone<T>(ts: seq<T>)
    ensures Occurrences(ts, []) == 0
  {
    if ts != [] {
      OccurrencesNone(ts[..|ts| - 1]);
    }
  }

  lemma {:induction false} OccurrencesSnoc<T>(ts: seq<T>, xs: seq<T>, x: T)
    requires NoDup(ts)
    ensures Occurrences(ts, xs + [x]) == Occurrences(ts, xs) + (if x in ts then 1 else 0)
  {
    if ts != [] {
      var init := ts[..|ts| - 1];
      assert NoDup(init);
      OccurrencesSnoc(init, xs, x);
      assert multiset(xs + [x]) == multiset(xs) + multiset{x};
      assert ts == init + [ts[|ts| - 1]];
    }
  }

  /** Ordinal (code-point) string order: the model's stand-in for JavaScript's
      default string sort and for `localeCompare`. */
  predicate StrLt(a: string, b: string) {
    if a == [] then b != []
    else if b == [] then false
    else if a[0] != b[0] then a[0] < b[0]
    else StrLt(a[1..], b[1..])
  }

  lemma {:induction false} StrLtIrreflexive(a: string)
    ensures !StrLt(a, a)
  {
    if a != [] { StrLtIrreflexive(a[1..]); }
  }

  lemma {:induction false} StrLtTransitive(a: string, b: string, c: string)
    requires StrLt(a, b) && StrLt(b, c)
    ensures StrLt(a, c)
  {
    if a != [] && b != [] && c != [] && a[0] == b[0] && b[0] == c[0] {
      StrLtTransitive(a[1..], b[1..], c[1..]);
    }
  }

  lemma {:induction false} StrLtTotal(a: string, b: string)
    requires a != b
    ensures StrLt(a, b) || StrLt(b, a)
  {
    if a != [] && b != [] && a[0] == b[0] {
      assert a == [a[0]] + a[1..] && b == [b[0]] + b[1..];
      StrLtTotal(a[1..], b[1..]);
    }
  }
}
