/** Cardinality facts the counting arguments use. */
module Sets {
  lemma {:induction false} SubsetSize<T>(a: set<T>, b: set<T>)
    requires a <= b
    ensures |a| <= |b|
    decreases a
  {
    if a != {} {
      var x :| x in a;
      SubsetSize(a - {x}, b - {x});
    }
  }

  /** The size of a set after one element is put in or taken out. */
  lemma ToggleSize<T>(a: set<T>, b: set<T>, x: T, within: bool)
    requires b == if within then a + {x} else a - {x}
    ensures |b| == |a| + (if within then 1 else 0) - (if x in a then 1 else 0)
  {
    var rest := a - {x};
    if x in a {
      assert a == rest + {x};
    } else {
      assert a == rest;
    }
    assert within ==> b == rest + {x};
  }
}
