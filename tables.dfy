/**
 * Query semantics of the ORM tables the application reads and writes.
 * A table is a sequence of rows in storage order; `filter(...)` keeps the
 * rows that match, and `get(...)` succeeds only when exactly one row matches.
 */
module Tables {

  datatype Option<+T> = None | Some(value: T)

  /** The rows of `s` that satisfy `p`, in storage order: a `filter(...)` query. */
  function Filter<T>(s: seq<T>, p: T -> bool): (r: seq<T>)
    ensures |r| <= |s|
    ensures forall x | x in r :: x in s && p(x)
    ensures forall x | x in s && p(x) :: x in r
  {
    if s == [] then [] else (if p(s[0]) then [s[0]] else []) + Filter(s[1..], p)
  }

  /** A query returns each matching row exactly as often as it is stored, and no other row. */
  lemma {:induction false} FilterMultiset<T>(s: seq<T>, p: T -> bool, x: T)
    ensures multiset(Filter(s, p))[x] == if p(x) then multiset(s)[x] else 0
  {
    if s != [] {
      assert s == [s[0]] + s[1..];
      FilterMultiset(s[1..], p, x);
    }
  }

  /** A query over two stretches of a table is the two queries one after the other. */
  lemma {:induction false} FilterConcat<T>(x: seq<T>, y: seq<T>, p: T -> bool)
    ensures Filter(x + y, p) == Filter(x, p) + Filter(y, p)
  {
    if x == [] {
      assert x + y == y;
    } else {
      assert (x + y)[0] == x[0];
      assert (x + y)[1..] == x[1..] + y;
      FilterConcat(x[1..], y, p);
    }
  }

  /** Adding one row adds one match exactly when the new row matches. */
  lemma FilterAppendCount<T>(s: seq<T>, x: T, p: T -> bool)
    ensures |Filter(s + [x], p)| == |Filter(s, p)| + (if p(x) then 1 else 0)
  {
    FilterConcat(s, [x], p);
    assert Filter([x], p) == (if p(x) then [x] else []) + Filter([], p);
  }

  /** `s` without the row at position `i`: the `delete()` of one row. */
  function RemoveAt<T>(s: seq<T>, i: nat): (r: seq<T>)
    requires i < |s|
    ensures |r| == |s| - 1
    ensures multiset(r) == multiset(s) - multiset{s[i]}
    ensures forall j | 0 <= j < |r| :: r[j] == if j < i then s[j] else s[j + 1]
  {
    assert s == s[..i] + [s[i]] + s[i+1..];
    s[..i] + s[i+1..]
  }

  /** Deleting one row removes one match exactly when that row matched. */
  lemma FilterRemoveAtCount<T>(s: seq<T>, i: nat, p: T -> bool)
    requires i < |s|
    ensures |Filter(RemoveAt(s, i), p)| + (if p(s[i]) then 1 else 0) == |Filter(s, p)|
  {
    assert s == s[..i] + ([s[i]] + s[i+1..]);
    FilterConcat(s[..i], [s[i]] + s[i+1..], p);
    FilterConcat([s[i]], s[i+1..], p);
    FilterConcat(s[..i], s[i+1..], p);
    assert Filter([s[i]], p) == (if p(s[i]) then [s[i]] else []) + Filter([], p);
  }

  /** Position of the first row equal to `x`. */
  function IndexOf<T(==)>(s: seq<T>, x: T): (r: Option<nat>)
    ensures r.None? <==> x !in s
    ensures r.Some? ==> r.value < |s| && s[r.value] == x
  {
    if s == [] then None
    else if s[0] == x then Some(0)
    else
      match IndexOf(s[1..], x)
      case None => None
      case Some(i) => Some(i + 1)
  }

  /** Outcome of `objects.get(...)`: no match, exactly one match (at `index`), or several. */
  datatype Lookup = DoesNotExist | Found(index: nat) | MultipleObjectsReturned

  /** `objects.get(...)` for a row whose matching fields are exactly `x`. */
  function Get<T(==)>(s: seq<T>, x: T): (r: Lookup)
    ensures r == DoesNotExist <==> x !in s
    ensures r.Found? ==> r.index < |s| && s[r.index] == x && multiset(s)[x] == 1
    ensures r == MultipleObjectsReturned <==> multiset(s)[x] > 1
  {
    if multiset(s)[x] == 0 then DoesNotExist
    else if multiset(s)[x] == 1 then Found(IndexOf(s, x).value)
    else MultipleObjectsReturned
  }

  /** No row occurs twice in the table. */
  predicate NoDuplicateRows<T(==)>(s: seq<T>) {
    forall x | x in s :: multiset(s)[x] == 1
  }
}
