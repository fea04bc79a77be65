/** Small shared datatypes. */
module Basics {

  datatype Option<+T> = None | Some(value: T)

  /** The value of a Go map lookup that may miss: the zero value of a string is "". */
  function Lookup(m: map<string, string>, key: string): string {
    if key in m then m[key] else ""
  }

  /** The first bound of Go's uint64 that does not fit. */
  const TWO_TO_THE_64: nat := 0x1_0000_0000_0000_0000

  lemma {:induction false} SubsetIsSmaller<T>(a: set<T>, b: set<T>)
    requires a <= b
    ensures |a| <= |b|
    ensures |a| == |b| ==> a == b
  {
    if a != {} {
      var x :| x in a;
      SubsetIsSmaller(a - {x}, b - {x});
    }
  }

  lemma AddElement<T>(s: set<T>, x: T)
    ensures |s + {x}| == |s| + (if x in s then 0 else 1)
  {
    if x in s {
      assert s + {x} == s;
    }
  }

  lemma {:induction false} Partition<T>(whole: set<T>, a: set<T>, b: set<T>)
    requires forall x :: x in whole <==> x in a || x in b
    requires forall x :: x in a ==> x !in b
    ensures |whole| == |a| + |b|
  {
    if whole == {} {
      assert a == {} && b == {};
    } else {
      var x :| x in whole;
      AddElement(whole - {x}, x);
      AddElement(a - {x}, x);
      AddElement(b - {x}, x);
      assert whole - {x} + {x} == whole;
      assert x in a ==> a - {x} + {x} == a;
      assert x in b ==> b - {x} + {x} == b;
      assert x !in a ==> a - {x} == a;
      assert x !in b ==> b - {x} == b;
      Partition(whole - {x}, a - {x}, b - {x});
    }
  }

  lemma SomeElement<T>(s: set<T>) returns (x: T)
    requires s != {}
    ensures x in s
  {
    x :| x in s;
  }

  /** One element in place of another. */
  lemma SwapElement<T>(s: set<T>, s': set<T>, gone: T, come: T)
    requires gone in s && come !in s
    requires forall x :: x in s' <==> x == come || (x in s && x != gone)
    ensures |s'| == |s|
  {
    assert s' == s - {gone} + {come};
  }
}
