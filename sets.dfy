/** A fact about integer sets that the counting proofs need. */
module Sets {

  /** Adding one to every element of a set keeps its size. */
  lemma {:induction false} ShiftedSize(s: set<int>)
    ensures |set j | j in s :: j + 1| == |s|
  {
    if |s| != 0 {
      assert exists y :: y in s by {
        if forall y :: y !in s {
          assert false;
        }
      }
      var x :| x in s;
      var rest := s - {x};
      ShiftedSize(rest);
      var a, b := set j | j in s :: j + 1, set j | j in rest :: j + 1;
      forall y ensures y in a <==> y in b + {x + 1} {
        if y in a {
          var j :| j in s && y == j + 1;
          assert j == x || j in rest;
        }
        if y in b {
          var j :| j in rest && y == j + 1;
          assert j in s;
        }
        if y == x + 1 {
          assert x in s;
        }
      }
      assert a == b + {x + 1};
    }
  }
}
