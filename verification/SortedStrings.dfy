/**
 Strings in the order of Go's `sort.Strings`, lexicographic by code point, and the ascending listing of a set of them.
 The keys of a map, collected in whatever order and sorted, are that list.
 */
module SortedStrings {

  predicate Less(a: string, b: string)
    decreases |a|
  {
    if b == "" then false
    else if a == "" then true
    else a[0] < b[0] || (a[0] == b[0] && Less(a[1..], b[1..]))
  }

  /** Alike up to i, where the one ends or has the smaller character. */
  ghost predicate DiffersAt(a: string, b: string, i: nat) {
    i <= |a| && i < |b| && a[..i] == b[..i] && (i == |a| || a[i] < b[i])
  }

  lemma {:induction false} DifferenceDecides(a: string, b: string, i: nat)
    requires DiffersAt(a, b, i)
    ensures Less(a, b)
    decreases i
  {
    if i > 0 {
      assert a[..i][0] == b[..i][0];
      assert a[1..][..i - 1] == a[..i][1..] && b[1..][..i - 1] == b[..i][1..];
      DifferenceDecides(a[1..], b[1..], i - 1);
    }
  }

  lemma {:induction false} LessHasDifference(a: string, b: string) returns (i: nat)
    requires Less(a, b)
    ensures DiffersAt(a, b, i)
    decreases |a|
  {
    if a == "" || a[0] < b[0] {
      i := 0;
    } else {
      var k := LessHasDifference(a[1..], b[1..]);
      assert a[..k + 1] == [a[0]] + a[1..][..k] && b[..k + 1] == [b[0]] + b[1..][..k];
      i := k + 1;
    }
  }

  /** The first place where two strings differ decides, and a proper prefix comes first. */
  lemma LessIff(a: string, b: string)
    ensures Less(a, b) <==> exists i: nat :: DiffersAt(a, b, i)
  {
    if Less(a, b) {
      var i := LessHasDifference(a, b);
    }
    if i: nat :| DiffersAt(a, b, i) {
      DifferenceDecides(a, b, i);
    }
  }

  lemma {:induction false} Irreflexive(a: string)
    ensures !Less(a, a)
  {
    if a != "" {
      Irreflexive(a[1..]);
    }
  }

  lemma {:induction false} Trichotomy(a: string, b: string)
    ensures Less(a, b) || a == b || Less(b, a)
    ensures !(Less(a, b) && Less(b, a))
    decreases |a|
  {
    if a != "" && b != "" {
      Trichotomy(a[1..], b[1..]);
      if a[0] == b[0] && a[1..] == b[1..] {
        assert a == [a[0]] + a[1..] && b == [b[0]] + b[1..];
      }
    }
  }

  lemma {:induction false} Transitive(a: string, b: string, c: string)
    requires Less(a, b) && Less(b, c)
    ensures Less(a, c)
    decreases |a|
  {
    if a != "" && a[0] == b[0] && b[0] == c[0] {
      Transitive(a[1..], b[1..], c[1..]);
    }
  }

  ghost predicate Ascending(keys: seq<string>) {
    forall i, j :: 0 <= i < j < |keys| ==> Less(keys[i], keys[j])
  }

  ghost predicate Lists(keys: seq<string>, of: set<string>) {
    forall k :: k in keys <==> k in of
  }

  /** Inserts a key before the first key that is not less. */
  function Insert(keys: seq<string>, k: string): seq<string> {
    if keys == [] || !Less(keys[0], k) then [k] + keys else [keys[0]] + Insert(keys[1..], k)
  }

  lemma {:induction false} InsertSplits(keys: seq<string>, k: string) returns (i: nat)
    requires Ascending(keys) && k !in keys
    ensures i <= |keys| && Insert(keys, k) == keys[..i] + [k] + keys[i..]
    ensures forall j :: 0 <= j < i ==> Less(keys[j], k)
    ensures forall j :: i <= j < |keys| ==> Less(k, keys[j])
  {
    if keys == [] || !Less(keys[0], k) {
      i := 0;
      forall j | 0 <= j < |keys| ensures Less(k, keys[j]) {
        Trichotomy(keys[0], k);
        if 0 < j {
          Transitive(k, keys[0], keys[j]);
        }
      }
    } else {
      var n := InsertSplits(keys[1..], k);
      i := n + 1;
      assert keys[..i] == [keys[0]] + keys[1..][..n] && keys[i..] == keys[1..][n..];
    }
  }

  lemma {:induction false} InsertMembers(keys: seq<string>, k: string, x: string)
    ensures x in Insert(keys, k) <==> x == k || x in keys
  {
    if keys != [] && Less(keys[0], k) {
      InsertMembers(keys[1..], k, x);
    }
  }

  lemma InsertKeepsListing(keys: seq<string>, k: string, of: set<string>)
    requires Ascending(keys) && Lists(keys, of) && k !in of
    ensures Ascending(Insert(keys, k)) && Lists(Insert(keys, k), of + {k})
  {
    var i := InsertSplits(keys, k);
    forall x ensures x in Insert(keys, k) <==> x in of + {k} {
      InsertMembers(keys, k, x);
    }
  }

  /** The keys of a map are collected in no particular order and sorted. */
  method Sort(of: set<string>) returns (keys: seq<string>)
    ensures Ascending(keys) && Lists(keys, of)
  {
    keys := [];
    var rest := of;
    while rest != {}
      invariant rest <= of && Ascending(keys) && Lists(keys, of - rest)
      decreases |rest|
    {
      var k :| k in rest;
      InsertKeepsListing(keys, k, of - rest);
      keys := Insert(keys, k);
      rest := rest - {k};
      assert of - rest == of - (rest + {k}) + {k};
    }
  }

  ghost function Listing(of: set<string>): (keys: seq<string>)
    ensures Ascending(keys) && Lists(keys, of)
  {
    if of == {} then [] else
    var k :| k in of;
    InsertKeepsListing(Listing(of - {k}), k, of - {k});
    assert of == of - {k} + {k};
    Insert(Listing(of - {k}), k)
  }

  lemma SmallestFirst(a: seq<string>, b: seq<string>, of: set<string>)
    requires Ascending(a) && Lists(a, of) && Ascending(b) && Lists(b, of) && a != []
    ensures b != [] && a[0] == b[0]
  {
    assert a[0] in of;
    assert b[0] in of;
    var i :| 0 <= i < |a| && a[i] == b[0];
    var j :| 0 <= j < |b| && b[j] == a[0];
    if i != 0 && j != 0 {
      assert Less(a[0], a[i]) && Less(b[0], b[j]);
      Trichotomy(a[0], b[0]);
    }
  }

  lemma TailLists(a: seq<string>, of: set<string>)
    requires Ascending(a) && Lists(a, of) && a != []
    ensures Ascending(a[1..]) && Lists(a[1..], of - {a[0]})
  {
    forall k | k in a[1..] ensures k in of - {a[0]} {
      var i :| 0 <= i < |a[1..]| && a[1..][i] == k;
      assert Less(a[0], a[i + 1]);
      Irreflexive(a[0]);
    }
    forall k | k in of - {a[0]} ensures k in a[1..] {
      var i :| 0 <= i < |a| && a[i] == k;
      assert a[1..][i - 1] == k;
    }
  }

  /** A set has one ascending listing, so the order in which its elements were met does not matter. */
  lemma {:induction false} AscendingIsUnique(a: seq<string>, b: seq<string>, of: set<string>)
    requires Ascending(a) && Lists(a, of) && Ascending(b) && Lists(b, of)
    ensures a == b
    decreases |a|
  {
    assert b != [] ==> b[0] in of;
    assert forall k :: k in of ==> k in a;
    if a != [] {
      SmallestFirst(a, b, of);
      TailLists(a, of);
      TailLists(b, of);
      AscendingIsUnique(a[1..], b[1..], of - {a[0]});
      assert a == [a[0]] + a[1..] && b == [b[0]] + b[1..];
    }
  }
}
