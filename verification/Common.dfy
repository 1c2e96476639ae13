/** Small vocabulary shared by the models. */
module Common {
  datatype Option<+T> = None | Some(value: T)

  /** All but the last of a nonempty list. */
  function Front<T>(list: seq<T>): seq<T>
    requires list != []
  {
    list[..|list| - 1]
  }

  function Final<T>(list: seq<T>): T
    requires list != []
  {
    list[|list| - 1]
  }

  lemma {:induction false} SubsetIsSmaller<T>(a: set<T>, b: set<T>)
    requires a <= b
    ensures |a| <= |b|
  {
    if a != {} {
      var x :| x in a;
      SubsetIsSmaller(a - {x}, b - {x});
    }
  }
}
