/**
 The kernel's linked lists (include/list.h) as sequences without repetitions.
 */
module Lists {
  ghost predicate NoDup<T>(s: seq<T>) { forall i, j :: 0 <= i < j < |s| ==> s[i] != s[j] }

  // list_del
  function Del<T(==)>(s: seq<T>, x: T): seq<T> {
    if s == [] then [] else if s[0] == x then s[1..] else [s[0]] + Del(s[1..], x)
  }

  lemma {:induction false} DelSpec<T>(s: seq<T>, x: T)
    requires NoDup(s) && x in s
    ensures NoDup(Del(s, x)) && |Del(s, x)| == |s| - 1 && forall q :: q in Del(s, x) <==> q in s && q != x
  {
    if s[0] != x {
      assert s == [s[0]] + s[1..];
      assert x in s[1..] && NoDup(s[1..]);
      assert s[0] !in s[1..];
      DelSpec(s[1..], x);
    } else {
      assert s == [x] + s[1..];
    }
  }

  lemma {:induction false} DelAny<T>(s: seq<T>, x: T)
    requires NoDup(s)
    ensures NoDup(Del(s, x)) && forall q :: q in Del(s, x) <==> q in s && q != x
  {
    if x in s {
      DelSpec(s, x);
    } else if s != [] {
      DelAny(s[1..], x);
      assert s == [s[0]] + s[1..];
      assert s[0] !in s[1..];
    }
  }
}
