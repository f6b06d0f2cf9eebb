/**
 * The `URLSearchParams` object of the WHATWG URL Standard (section 6.2) as far
 * as the builder uses it: an ordered list of name-value tuples that `set` and
 * `append` update in place, `getAll` reads and `toString` serialises.
 */
module SearchParams {
  import opened FormUrlEncoded

  /** The values of the tuples named `name`, in list order (the interface's `getAll`). */
  function GetAll(list: seq<Pair>, name: string): seq<string> {
    if list == [] then []
    else (if list[0].0 == name then [list[0].1] else []) + GetAll(list[1..], name)
  }

  /** The tuples whose name is not `name`, in list order. */
  function OtherNames(list: seq<Pair>, name: string): seq<Pair> {
    if list == [] then []
    else (if list[0].0 == name then [] else [list[0]]) + OtherNames(list[1..], name)
  }

  predicate HasName(list: seq<Pair>, name: string) {
    exists i :: 0 <= i < |list| && list[i].0 == name
  }

  /**
   * The `set(name, value)` method: when the list contains a tuple named
   * `name`, the first one gets `value` and the others are removed; otherwise
   * the tuple is appended.
   */
  function SetTuple(list: seq<Pair>, name: string, value: string): (r: seq<Pair>)
    ensures GetAll(r, name) == [value]
    ensures OtherNames(r, name) == OtherNames(list, name)
    ensures !HasName(list, name) ==> r == list + [(name, value)]
  {
    if list == [] then [(name, value)]
    else if list[0].0 == name then
      var rest := OtherNames(list[1..], name);
      OtherNamesDrops(list[1..], name);
      OtherNamesKeeps(list[1..], name);
      [(name, value)] + rest
    else
      var r := [list[0]] + SetTuple(list[1..], name, value);
      assert r[1..] == SetTuple(list[1..], name, value);
      assert !HasName(list, name) ==> !HasName(list[1..], name) by {
        if HasName(list[1..], name) {
          var i :| 0 <= i < |list[1..]| && list[1..][i].0 == name;
          assert list[i + 1].0 == name;
        }
      }
      r
  }

  lemma {:induction false} OtherNamesDrops(list: seq<Pair>, name: string)
    ensures GetAll(OtherNames(list, name), name) == []
  {
    if list != [] {
      OtherNamesDrops(list[1..], name);
      var rest := OtherNames(list[1..], name);
      if list[0].0 != name {
        assert ([list[0]] + rest)[1..] == rest;
      } else {
        assert OtherNames(list, name) == rest;
      }
    }
  }

  lemma {:induction false} OtherNamesKeeps(list: seq<Pair>, name: string)
    ensures OtherNames(OtherNames(list, name), name) == OtherNames(list, name)
  {
    if list != [] {
      OtherNamesKeeps(list[1..], name);
      var rest := OtherNames(list[1..], name);
      if list[0].0 != name {
        assert ([list[0]] + rest)[1..] == rest;
      } else {
        assert OtherNames(list, name) == rest;
      }
    }
  }

  lemma {:induction false} GetAllConcat(a: seq<Pair>, b: seq<Pair>, name: string)
    ensures GetAll(a + b, name) == GetAll(a, name) + GetAll(b, name)
  {
    if a == [] {
      assert a + b == b;
    } else {
      assert (a + b)[1..] == a[1..] + b;
      GetAllConcat(a[1..], b, name);
    }
  }

  class URLSearchParams {
    var list: seq<Pair>

    constructor ()
      ensures list == []
    {
      list := [];
    }

    method Set(name: string, value: string)
      modifies this
      ensures list == SetTuple(old(list), name, value)
    {
      list := SetTuple(list, name, value);
    }

    method Append(name: string, value: string)
      modifies this
      ensures list == old(list) + [(name, value)]
    {
      list := list + [(name, value)];
    }

    function ToString(): string
      reads this
    {
      Serialize(list)
    }
  }
}
