/** Names in byte order, as sort.Strings leaves them, and the keys of a map in whatever order they come. */
module Names {

  predicate Less(a: string, b: string) {
    if b == "" then false
    else if a == "" then true
    else a[0] < b[0] || (a[0] == b[0] && Less(a[1..], b[1..]))
  }

  predicate Ascending(s: seq<string>) { forall i, j :: 0 <= i < j < |s| ==> Less(s[i], s[j]) }

  function Elements(s: seq<string>): set<string> { set x | x in s }

  lemma {:induction false} LessIsTotal(a: string, b: string)
    ensures a == b || Less(a, b) || Less(b, a)
    ensures !(Less(a, b) && Less(b, a)) && !Less(a, a)
  {
    if a != "" && b != "" {
      LessIsTotal(a[1..], b[1..]);
      if a[0] == b[0] && a[1..] == b[1..] {
        assert a == [a[0]] + a[1..] && b == [b[0]] + b[1..];
      }
    }
    if a != "" {
      LessIsTotal(a[1..], a[1..]);
    }
  }

  lemma {:induction false} LessIsTransitive(a: string, b: string, c: string)
    requires Less(a, b) && Less(b, c)
    ensures Less(a, c)
  {
    if a != "" && a[0] == b[0] == c[0] {
      LessIsTransitive(a[1..], b[1..], c[1..]);
    }
  }

  lemma {:induction false} AscendingIsUnique(a: seq<string>, b: seq<string>)
    requires Ascending(a) && Ascending(b) && Elements(a) == Elements(b)
    ensures a == b
  {
    NoElements(a);
    NoElements(b);
    if a != [] {
      assert a[0] in Elements(a) && b[0] in Elements(b);
      var i :| 0 <= i < |b| && b[i] == a[0];
      var j :| 0 <= j < |a| && a[j] == b[0];
      LessIsTotal(a[0], b[0]);
      assert a[0] == b[0];
      TailElements(a);
      TailElements(b);
      AscendingIsUnique(a[1..], b[1..]);
      assert a == [a[0]] + a[1..] && b == [b[0]] + b[1..];
    }
  }

  lemma NoElements(s: seq<string>)
    ensures Elements(s) == {} <==> s == []
  {
    if s != [] {
      assert s[0] in Elements(s);
    }
  }

  lemma TailElements(s: seq<string>)
    requires Ascending(s) && s != []
    ensures Ascending(s[1..]) && Elements(s[1..]) == Elements(s) - {s[0]}
  {
    forall x | x in Elements(s) && x != s[0] ensures x in Elements(s[1..]) {
      var k :| 0 <= k < |s| && s[k] == x;
      assert s[1..][k - 1] == x;
    }
    forall x | x in s[1..] ensures x != s[0] {
      var k :| 0 <= k < |s| - 1 && s[1..][k] == x;
      LessIsTotal(s[0], s[k + 1]);
    }
  }

  /** The place of a name in an ascending list, and the list with it. */
  function Inserted(s: seq<string>, x: string): seq<string> {
    if s == [] then [x] else if Less(x, s[0]) then [x] + s else [s[0]] + Inserted(s[1..], x)
  }

  lemma {:induction false} InsertedIsAscending(s: seq<string>, x: string)
    requires Ascending(s) && x !in s
    ensures Ascending(Inserted(s, x)) && Elements(Inserted(s, x)) == Elements(s) + {x}
  {
    if s != [] {
      var t := Inserted(s, x);
      LessIsTotal(x, s[0]);
      if Less(x, s[0]) {
        forall j | 0 <= j < |s| ensures Less(x, s[j]) {
          if j > 0 { LessIsTransitive(x, s[0], s[j]); }
        }
      } else {
        InsertedIsAscending(s[1..], x);
        var rest := Inserted(s[1..], x);
        assert s == [s[0]] + s[1..];
        forall j | 0 <= j < |rest| ensures Less(s[0], rest[j]) {
          assert rest[j] in Elements(rest);
          if rest[j] != x {
            var k :| 0 <= k < |s| - 1 && s[1..][k] == rest[j];
          }
        }
      }
    }
  }

  /** sort.Strings on distinct names. */
  method SortStrings(names: seq<string>) returns (sorted: seq<string>)
    requires forall i, j :: 0 <= i < j < |names| ==> names[i] != names[j]
    ensures Ascending(sorted) && Elements(sorted) == Elements(names)
  {
    sorted := [];
    for i := 0 to |names|
      invariant Ascending(sorted) && Elements(sorted) == Elements(names[..i])
    {
      assert forall j :: 0 <= j < i ==> names[..i][j] != names[i];
      assert names[i] !in Elements(sorted);
      InsertedIsAscending(sorted, names[i]);
      assert names[..i + 1] == names[..i] + [names[i]];
      sorted := Inserted(sorted, names[i]);
    }
    assert names[..|names|] == names;
  }

  /** The keys of a map, in no particular order. */
  method KeysOf<T>(m: map<string, T>) returns (keys: seq<string>)
    ensures Elements(keys) == m.Keys
    ensures forall i, j :: 0 <= i < j < |keys| ==> keys[i] != keys[j]
  {
    keys := [];
    var left := m.Keys;
    while left != {}
      invariant left <= m.Keys && Elements(keys) == m.Keys - left
      invariant forall i, j :: 0 <= i < j < |keys| ==> keys[i] != keys[j]
      decreases |left|
    {
      var key :| key in left;
      assert key !in Elements(keys);
      assert Elements(keys + [key]) == Elements(keys) + {key};
      keys := keys + [key];
      left := left - {key};
    }
  }

  ghost predicate Sorting(names: set<string>, s: seq<string>) { Ascending(s) && Elements(s) == names }

  lemma {:induction false} EverySetIsSorted(names: set<string>)
    ensures exists s :: Sorting(names, s)
  {
    if names == {} {
      assert Sorting(names, []);
    } else {
      var x :| x in names;
      EverySetIsSorted(names - {x});
      var s :| Sorting(names - {x}, s);
      assert x !in Elements(s);
      InsertedIsAscending(s, x);
      assert Sorting(names, Inserted(s, x));
    }
  }

  /** The one ascending list of a set of names. */
  ghost function Sorted(names: set<string>): (s: seq<string>)
    ensures Sorting(names, s)
  {
    EverySetIsSorted(names);
    var s :| Sorting(names, s);
    s
  }

  /** However the names were enumerated, sorting them gives that list. */
  lemma SortedWhateverTheOrder(names: set<string>, s: seq<string>)
    requires Sorting(names, s)
    ensures s == Sorted(names)
  {
    AscendingIsUnique(s, Sorted(names));
  }
}
