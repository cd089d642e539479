/** Plain JavaScript objects used as string-keyed dictionaries.
    Property enumeration (`Object.keys`, `Object.entries`) follows insertion
    order, assigning to an existing property keeps its position, and `delete`
    removes the key from the order. An `Obj` keeps that order in `keys` and the
    property values in `vals`. */
module JsObject {

  datatype Option<+T> = None | Some(value: T)

  /** No key occurs twice. */
  ghost predicate Distinct(s: seq<string>) {
    forall i, j :: 0 <= i < j < |s| ==> s[i] != s[j]
  }

  datatype Obj<V> = Obj(keys: seq<string>, vals: map<string, V>) {

    /** The enumeration order lists every own property exactly once. */
    ghost predicate Valid() {
      && Distinct(keys)
      && (forall k :: k in keys <==> k in vals)
    }

    /** `o[k]`, which is `undefined` for a missing property. */
    function Get(k: string): (r: Option<V>)
      ensures r.Some? <==> k in vals
      ensures r.Some? ==> r.value == vals[k]
    {
      if k in vals then Some(vals[k]) else None
    }

    /** `o[k] = v`: a new key goes to the end of the order, an existing key stays where it is. */
    function Put(k: string, v: V): (r: Obj<V>)
      requires Valid()
      ensures r.Valid()
      ensures r.vals == vals[k := v]
      ensures k in vals ==> r.keys == keys
      ensures k !in vals ==> r.keys == keys + [k]
    {
      if k in vals then Obj(keys, vals[k := v]) else Obj(keys + [k], vals[k := v])
    }

    /** `delete o[k]`: the key leaves the order, the others keep their relative order. */
    function Delete(k: string): (r: Obj<V>)
      requires Valid()
      ensures r.Valid()
      ensures r.vals == vals - {k}
      ensures r.keys == Without(keys, k)
      ensures k !in vals ==> r == this
    {
      WithoutSpec(keys, k);
      WithoutAbsent(keys, k);
      Obj(Without(keys, k), vals - {k})
    }

    /** `Object.keys(o).length`. */
    function Size(): (n: nat)
      requires Valid()
      ensures n == |vals|
      ensures n == 0 <==> vals == map[]
    {
      DistinctCard(keys);
      assert (set i | 0 <= i < |keys| :: keys[i]) == vals.Keys;
      |keys|
    }

    /** `Object.entries(o)`, in enumeration order. */
    function Entries(): (r: seq<(string, V)>)
      requires Valid()
      ensures |r| == |keys|
      ensures forall i :: 0 <= i < |r| ==> r[i].0 == keys[i] && r[i].1 == vals[keys[i]]
    {
      seq(|keys|, i requires 0 <= i < |keys| => (keys[i], vals[keys[i]]))
    }
  }

  /** `{}` */
  function Empty<V>(): (r: Obj<V>)
    ensures r.Valid() && r.vals == map[] && r.keys == []
  {
    Obj([], map[])
  }

  /** `s` with every occurrence of `k` dropped, the rest in order. */
  function Without(s: seq<string>, k: string): seq<string>
  {
    if s == [] then []
    else if s[0] == k then Without(s[1..], k)
    else [s[0]] + Without(s[1..], k)
  }

  /** Dropping a key keeps exactly the other keys and keeps them distinct. */
  lemma {:induction false} WithoutSpec(s: seq<string>, k: string)
    ensures forall x :: x in Without(s, k) <==> x in s && x != k
    ensures Distinct(s) ==> Distinct(Without(s, k))
    ensures Distinct(s) ==> |Without(s, k)| == if k in s then |s| - 1 else |s|
  {
    if s != [] {
      WithoutSpec(s[1..], k);
      if Distinct(s) {
        assert Distinct(s[1..]) by {
          forall i, j | 0 <= i < j < |s[1..]| ensures s[1..][i] != s[1..][j] {
            assert s[1..][i] == s[i + 1] && s[1..][j] == s[j + 1];
          }
        }
        if s[0] != k {
          var t := [s[0]] + Without(s[1..], k);
          assert s[0] !in s[1..] by {
            forall j | 0 <= j < |s[1..]| ensures s[1..][j] != s[0] {
              assert s[1..][j] == s[j + 1];
            }
          }
          forall i, j | 0 <= i < j < |t| ensures t[i] != t[j] {
            if i == 0 {
              assert t[j] in Without(s[1..], k);
            } else {
              assert t[i] == Without(s[1..], k)[i - 1] && t[j] == Without(s[1..], k)[j - 1];
            }
          }
        } else {
          assert k !in s[1..] by {
            forall j | 0 <= j < |s[1..]| ensures s[1..][j] != k {
              assert s[1..][j] == s[j + 1];
            }
          }
        }
      }
    }
  }

  /** Removing a key that is absent changes nothing. */
  lemma {:induction false} WithoutAbsent(s: seq<string>, k: string)
    ensures k !in s ==> Without(s, k) == s
  {
    if s != [] && k !in s {
      WithoutAbsent(s[1..], k);
      assert s == [s[0]] + s[1..];
    }
  }

  /** Removing the key at position `i` of a duplicate-free order splices it out. */
  lemma {:induction false} WithoutAt(s: seq<string>, i: nat)
    requires Distinct(s) && i < |s|
    ensures Without(s, s[i]) == s[..i] + s[i + 1..]
  {
    if i == 0 {
      assert s[i] !in s[1..] by {
        forall j | 0 <= j < |s[1..]| ensures s[1..][j] != s[0] {
          assert s[1..][j] == s[j + 1];
        }
      }
      WithoutAbsent(s[1..], s[0]);
    } else {
      assert Distinct(s[1..]) by {
        forall a, b | 0 <= a < b < |s[1..]| ensures s[1..][a] != s[1..][b] {
          assert s[1..][a] == s[a + 1] && s[1..][b] == s[b + 1];
        }
      }
      assert s[1..][i - 1] == s[i];
      WithoutAt(s[1..], i - 1);
      assert s[1..][..i - 1] == s[1..i];
      assert s[1..][i..] == s[i + 1..];
      assert s[..i] == [s[0]] + s[1..i];
    }
  }

  /** In a duplicate-free order, no key occurs before its own position. */
  lemma NotEarlier(s: seq<string>, i: nat)
    requires Distinct(s) && i < |s|
    ensures s[i] !in s[..i]
  {
    forall j | 0 <= j < i ensures s[..i][j] != s[i] {
      assert s[..i][j] == s[j];
    }
  }

  /** A duplicate-free sequence has as many elements as the set of its elements. */
  lemma {:induction false} DistinctCard(s: seq<string>)
    requires Distinct(s)
    ensures |set i | 0 <= i < |s| :: s[i]| == |s|
  {
    if s != [] {
      var t := s[1..];
      assert Distinct(t) by {
        forall a, b | 0 <= a < b < |t| ensures t[a] != t[b] {
          assert t[a] == s[a + 1] && t[b] == s[b + 1];
        }
      }
      DistinctCard(t);
      var st := set i | 0 <= i < |t| :: t[i];
      var ss := set i | 0 <= i < |s| :: s[i];
      assert ss == st + {s[0]} by {
        forall x | x in ss ensures x in st + {s[0]} {
          var i :| 0 <= i < |s| && s[i] == x;
          if i > 0 { assert t[i - 1] == x; }
        }
        forall x | x in st ensures x in ss {
          var i :| 0 <= i < |t| && t[i] == x;
          assert s[i + 1] == x;
        }
      }
      assert s[0] !in st by {
        forall x | x in st ensures x != s[0] {
          var i :| 0 <= i < |t| && t[i] == x;
          assert s[i + 1] == x;
        }
      }
    }
  }
}
