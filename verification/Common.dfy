/** Small shared vocabulary: optional values, results, and sums over sequences. */
module Common {

  datatype Option<+T> = None | Some(value: T)

  datatype Result<+T, +E> = Ok(value: T) | Err(error: E)

  /** No element occurs at two positions, as in the key list of a Go map. */
  ghost predicate Unique<T>(s: seq<T>) {
    forall i, j :: 0 <= i < j < |s| ==> s[i] != s[j]
  }

  function Apply<A, B>(f: A -> B, s: seq<A>): (r: seq<B>)
    ensures |r| == |s|
    ensures forall i :: 0 <= i < |s| ==> r[i] == f(s[i])
  {
    if s == [] then [] else [f(s[0])] + Apply(f, s[1..])
  }

  lemma ApplyAppend<A, B>(f: A -> B, s: seq<A>, x: A)
    ensures Apply(f, s + [x]) == Apply(f, s) + [f(x)]
  {
  }

  lemma ApplyConcat<A, B>(f: A -> B, s: seq<A>, t: seq<A>)
    ensures Apply(f, s + t) == Apply(f, s) + Apply(f, t)
  {
  }

  lemma MultisetInsert<A>(left: seq<A>, x: A, right: seq<A>)
    ensures multiset(left + [x] + right) == multiset{x} + multiset(left + right)
  {
  }

  /** Where an element stands in the input does not matter to the multiset of images. */
  lemma ApplyInsert<A, B>(f: A -> B, left: seq<A>, x: A, right: seq<A>)
    ensures multiset(Apply(f, left + [x] + right)) == multiset{f(x)} + multiset(Apply(f, left + right))
  {
    ApplyConcat(f, left + [x], right);
    ApplyAppend(f, left, x);
    ApplyConcat(f, left, right);
    MultisetInsert(Apply(f, left), f(x), Apply(f, right));
  }

  lemma RemoveAt<A>(t: seq<A>, k: nat)
    requires k < |t|
    ensures t == t[..k] + [t[k]] + t[k + 1..]
    ensures multiset(t[..k] + t[k + 1..]) == multiset(t) - multiset{t[k]}
  {
    assert t == t[..k] + [t[k]] + t[k + 1..];
  }

  /** Mapping respects multiset equality: reordering the input only reorders the output. */
  lemma {:induction false} ApplyPermutes<A, B>(f: A -> B, s: seq<A>, t: seq<A>)
    requires multiset(s) == multiset(t)
    ensures multiset(Apply(f, s)) == multiset(Apply(f, t))
    decreases |s|
  {
    if s == [] {
      assert |multiset(t)| == 0;
      assert t == [];
    } else {
      assert s[0] in multiset(t);
      var k :| 0 <= k < |t| && t[k] == s[0];
      RemoveAt(t, k);
      RemoveAt(s, 0);
      assert s[..0] + s[1..] == s[1..];
      ApplyPermutes(f, s[1..], t[..k] + t[k + 1..]);
      ApplyInsert(f, [], s[0], s[1..]);
      assert [] + [s[0]] + s[1..] == s && [] + s[1..] == s[1..];
      ApplyInsert(f, t[..k], t[k], t[k + 1..]);
    }
  }

  /** The sum of a sequence of multisets. */
  ghost function Total<T>(items: seq<multiset<T>>): multiset<T> {
    if items == [] then multiset{} else items[0] + Total(items[1..])
  }

  /** Replacing one summand changes the sum by exactly that summand. */
  lemma {:induction false} TotalUpdate<T>(items: seq<multiset<T>>, i: nat, x: multiset<T>)
    requires i < |items|
    ensures Total(items[i := x]) + items[i] == Total(items) + x
  {
    if i == 0 {
      assert items[0 := x][1..] == items[1..];
    } else {
      var rest := items[1..];
      assert items[i := x][1..] == rest[i - 1 := x];
      TotalUpdate(rest, i - 1, x);
      var a, b := Total(rest[i - 1 := x]), Total(rest);
      assert a + items[i] == b + x;
      calc {
        Total(items[i := x]) + items[i];
        (items[0] + a) + items[i];
        items[0] + (a + items[i]);
        items[0] + (b + x);
        (items[0] + b) + x;
      }
    }
  }

  /** Two sides that balance keep balancing when both change by the same amount. */
  lemma Rebalance<T>(left: multiset<T>, right: multiset<T>, left': multiset<T>, right': multiset<T>,
                     taken: multiset<T>, lost: multiset<T>, gained: multiset<T>)
    requires left + taken == right
    requires left' + lost == left + gained
    requires right' + lost == right + gained
    ensures left' + taken == right'
  {
    assert left' == left + gained - lost;
    assert right' == right + gained - lost;
    forall x ensures (left' + taken)[x] == right'[x] {
      assert (left' + lost)[x] == (left + gained)[x];
      assert (right' + lost)[x] == (right + gained)[x];
      assert (left + taken)[x] == right[x];
    }
  }

  /** Summands that are each a singleton make up the multiset of their elements. */
  lemma {:induction false} TotalOfSingletons<T>(items: seq<multiset<T>>, s: seq<T>)
    requires |items| == |s|
    requires forall i :: 0 <= i < |s| ==> items[i] == multiset{s[i]}
    ensures Total(items) == multiset(s)
  {
    if s != [] {
      TotalOfSingletons(items[1..], s[1..]);
      assert s == [s[0]] + s[1..];
      assert multiset(s) == multiset{s[0]} + multiset(s[1..]);
    }
  }

  /** At most one element per summand, and fewer where a summand is empty. */
  lemma {:induction false} TotalSize<T>(items: seq<multiset<T>>)
    requires forall i :: 0 <= i < |items| ==> |items[i]| <= 1
    ensures |Total(items)| <= |items|
    ensures forall i :: 0 <= i < |items| && items[i] == multiset{} ==> |Total(items)| < |items|
  {
    if items != [] {
      TotalSize(items[1..]);
      forall i | 0 <= i < |items| && items[i] == multiset{}
        ensures |Total(items)| < |items|
      {
        if i > 0 {
          assert items[1..][i - 1] == multiset{};
        }
      }
    }
  }

  /** An element that only summand `k` can contain occurs in the sum as often as in that summand. */
  lemma {:induction false} TotalAt<T>(items: seq<multiset<T>>, x: T, k: int)
    requires forall i :: 0 <= i < |items| && i != k ==> items[i][x] == 0
    ensures Total(items)[x] == if 0 <= k < |items| then items[k][x] else 0
  {
    if items != [] {
      forall i | 0 <= i < |items[1..]| && i != k - 1 ensures items[1..][i][x] == 0 {
        assert items[1..][i] == items[i + 1];
      }
      TotalAt(items[1..], x, k - 1);
    }
  }

  ghost function Sum(items: seq<nat>): nat {
    if items == [] then 0 else items[0] + Sum(items[1..])
  }

  lemma {:induction false} SumUpdate(items: seq<nat>, i: nat, x: nat)
    requires i < |items|
    ensures Sum(items[i := x]) + items[i] == Sum(items) + x
  {
    if i == 0 {
      assert items[0 := x][1..] == items[1..];
    } else {
      assert items[i := x][1..] == items[1..][i - 1 := x];
      SumUpdate(items[1..], i - 1, x);
    }
  }

  lemma {:induction false} SumZero(items: seq<nat>)
    ensures Sum(items) == 0 <==> forall i :: 0 <= i < |items| ==> items[i] == 0
  {
    if items != [] {
      SumZero(items[1..]);
      if Sum(items) == 0 {
        forall i | 0 <= i < |items| ensures items[i] == 0 {
          if i > 0 {
            assert items[i] == items[1..][i - 1];
          }
        }
      }
    }
  }
}
