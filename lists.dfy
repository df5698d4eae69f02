/**
 * List edits shared by the form builder and the field editor: removing a
 * position (`filter((_, i) => i !== index)`), inserting at a position
 * (`splice(index, 0, x)`) and the drag move (remove, then insert); and
 * the renderer's removal of a value (`filter((o) => o !== x)`).
 */
module Lists {

  /** filter((_, i) => i !== index): drops position `index`; any other index keeps the list. */
  function RemoveAt<T>(s: seq<T>, index: int): (r: seq<T>)
    ensures 0 <= index < |s| ==> |r| == |s| - 1
    ensures 0 <= index < |s| ==> forall j | 0 <= j < |r| :: r[j] == if j < index then s[j] else s[j + 1]
    ensures !(0 <= index < |s|) ==> r == s
  {
    if 0 <= index < |s| then s[..index] + s[index + 1..] else s
  }

  /** Removing a position takes exactly that element out of the multiset. */
  lemma RemoveAtMultiset<T>(s: seq<T>, index: nat)
    requires index < |s|
    ensures multiset(RemoveAt(s, index)) + multiset{s[index]} == multiset(s)
  {
    assert s == s[..index] + [s[index]] + s[index + 1..];
  }

  /** splice(index, 0, x) with 0 <= index <= length: x lands at `index`. */
  function InsertAt<T>(s: seq<T>, index: nat, x: T): (r: seq<T>)
    requires index <= |s|
    ensures |r| == |s| + 1 && r[index] == x
    ensures forall j | 0 <= j < |s| :: s[j] == if j < index then r[j] else r[j + 1]
  {
    s[..index] + [x] + s[index..]
  }

  /** Inserting and then removing the same position gives the list back. */
  lemma RemoveInserted<T>(s: seq<T>, index: nat, x: T)
    requires index <= |s|
    ensures RemoveAt(InsertAt(s, index, x), index) == s
  {
    var r := InsertAt(s, index, x);
    assert RemoveAt(r, index) == r[..index] + r[index + 1..];
    assert r[..index] == s[..index] && r[index + 1..] == s[index..];
  }

  /** Inserting adds exactly the element to the multiset. */
  lemma InsertAtMultiset<T>(s: seq<T>, index: nat, x: T)
    requires index <= |s|
    ensures multiset(InsertAt(s, index, x)) == multiset(s) + multiset{x}
  {
    assert s == s[..index] + s[index..];
  }

  /** The drag move: the element at `from` is taken out and put back in at `to`. */
  function Move<T>(s: seq<T>, from: nat, to: nat): (r: seq<T>)
    requires from < |s| && to < |s|
    ensures |r| == |s| && r[to] == s[from]
  {
    InsertAt(RemoveAt(s, from), to, s[from])
  }

  /** A move is a permutation: the same elements, each as often. */
  lemma MoveIsPermutation<T>(s: seq<T>, from: nat, to: nat)
    requires from < |s| && to < |s|
    ensures multiset(Move(s, from, to)) == multiset(s)
  {
    RemoveAtMultiset(s, from);
    InsertAtMultiset(RemoveAt(s, from), to, s[from]);
  }

  /** Apart from the moved element, the order of the rest is kept. */
  lemma MoveKeepsOthersInOrder<T>(s: seq<T>, from: nat, to: nat)
    requires from < |s| && to < |s|
    ensures RemoveAt(Move(s, from, to), to) == RemoveAt(s, from)
  {
    RemoveInserted(RemoveAt(s, from), to, s[from]);
  }

  /** Moving back from the target to the origin undoes a move. */
  lemma MoveBack<T>(s: seq<T>, from: nat, to: nat)
    requires from < |s| && to < |s|
    ensures Move(Move(s, from, to), to, from) == s
  {
    var m := Move(s, from, to);
    MoveKeepsOthersInOrder(s, from, to);
    var rest := RemoveAt(s, from);
    assert Move(m, to, from) == InsertAt(rest, from, s[from]);
    assert InsertAt(rest, from, s[from]) == s[..from] + [s[from]] + s[from + 1..];
    assert s == s[..from] + [s[from]] + s[from + 1..];
  }

  /** filter((o) => o !== x): every copy of `x` is dropped. */
  function Without<T(==,!new)>(s: seq<T>, x: T): (r: seq<T>)
    ensures forall y :: y in r <==> y in s && y != x
    ensures x !in s ==> r == s
  {
    if s == [] then []
    else (if s[0] == x then [] else [s[0]]) + Without(s[1..], x)
  }

  lemma WithoutCons<T(!new)>(c: T, rest: seq<T>, x: T)
    ensures Without([c] + rest, x) == (if c == x then [] else [c]) + Without(rest, x)
  {
    assert ([c] + rest)[0] == c && ([c] + rest)[1..] == rest;
  }

  /** The filter works item by item: it distributes over concatenation, so the kept items stay in order. */
  lemma {:induction false} WithoutConcat<T(!new)>(a: seq<T>, b: seq<T>, x: T)
    ensures Without(a + b, x) == Without(a, x) + Without(b, x)
  {
    if a != [] {
      var c, t := a[0], a[1..];
      HeadTail(a, b);
      WithoutCons(c, t + b, x);
      WithoutCons(c, t, x);
      WithoutConcat(t, b, x);
      if c != x {
        ConsAssoc(c, Without(t, x), Without(b, x));
      }
    } else {
      assert a + b == b;
    }
  }

  /** The filter drops every copy of `x` and keeps every other item as many times as before. */
  lemma {:induction false} WithoutMultiset<T(!new)>(s: seq<T>, x: T)
    ensures multiset(Without(s, x)) == multiset(s)[x := 0]
  {
    if s != [] {
      var c, rest := s[0], s[1..];
      HeadTail(s, []);
      WithoutCons(c, rest, x);
      WithoutMultiset(rest, x);
      DropOneStep(c, x, multiset(rest), multiset(Without(rest, x)));
    }
  }

  /** Counting after the filter, one item at a time. */
  lemma DropOneStep<T>(c: T, x: T, m: multiset<T>, w: multiset<T>)
    requires w == m[x := 0]
    ensures multiset(if c == x then [] else [c]) + w == (multiset([c]) + m)[x := 0]
  {
  }

  /** Filtering out an item just appended, and found nowhere before it, restores the list. */
  lemma WithoutAppended<T(!new)>(s: seq<T>, x: T)
    requires x !in s
    ensures Without(s + [x], x) == s
  {
    WithoutConcat(s, [x], x);
    WithoutCons(x, [], x);
  }

  /** A non-empty list is its head before its tail, also before whatever follows it. */
  lemma HeadTail<T>(a: seq<T>, b: seq<T>)
    requires a != []
    ensures a == [a[0]] + a[1..] && a + b == [a[0]] + (a[1..] + b)
  {
  }

  lemma ConsAssoc<T>(c: T, u: seq<T>, v: seq<T>)
    ensures [c] + (u + v) == ([c] + u) + v
  {
  }

  /** Putting one item before two lists keeps a difference of one `x` between their counts. */
  lemma ConsCount<T>(c: T, t: seq<T>, u: seq<T>, x: T)
    requires multiset(u) == multiset(t) + multiset{x}
    ensures multiset([c] + u) == multiset([c] + t) + multiset{x}
  {
  }
}
