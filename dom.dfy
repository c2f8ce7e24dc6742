/**
 * The slice of an element the template compiler looks at: its attribute
 * list, in document order, with `getAttribute`-style lookup and
 * `removeAttribute`.
 */
module Dom {
  import opened Wrappers

  datatype Attr = Attr(name: string, value: string)

  /** The two-way binding attribute. */
  const VModel: string := "v-model"

  /** An element never carries two attributes of the same name. */
  predicate UniqueNames(attrs: seq<Attr>) {
    forall i, j :: 0 <= i < j < |attrs| ==> attrs[i].name != attrs[j].name
  }

  /** No attribute of `attrs` is called `name`. */
  predicate Lacks(attrs: seq<Attr>, name: string) {
    forall i :: 0 <= i < |attrs| ==> attrs[i].name != name
  }

  /** The value of the first attribute called `name`, if there is one. */
  function GetAttr(attrs: seq<Attr>, name: string): (r: Option<string>)
    ensures r.None? <==> Lacks(attrs, name)
    ensures r.Some? ==> Attr(name, r.value) in attrs
  {
    if attrs == [] then None
    else if attrs[0].name == name then Some(attrs[0].value)
    else
      var r := GetAttr(attrs[1..], name);
      assert Lacks(attrs[1..], name) ==> Lacks(attrs, name) by {
        if Lacks(attrs[1..], name) {
          forall i | 0 < i < |attrs| ensures attrs[i].name != name {
            assert attrs[i] == attrs[1..][i - 1];
          }
        }
      }
      r
  }

  /** On an element, the attribute called `name` is the one at index i. */
  lemma {:induction false} GetAttrAt(attrs: seq<Attr>, name: string, i: nat)
    requires UniqueNames(attrs) && i < |attrs| && attrs[i].name == name
    ensures GetAttr(attrs, name) == Some(attrs[i].value)
  {
    if i > 0 {
      assert attrs[0].name != name;
      GetAttrAt(attrs[1..], name, i - 1);
    }
  }

  /** `removeAttribute(name)`: the attributes not called `name`, in order. */
  function RemoveAttr(attrs: seq<Attr>, name: string): (r: seq<Attr>)
    ensures |r| <= |attrs|
  {
    if attrs == [] then []
    else if attrs[0].name == name then RemoveAttr(attrs[1..], name)
    else [attrs[0]] + RemoveAttr(attrs[1..], name)
  }

  /** Removal keeps exactly the attributes not called `name`; none so called is left. */
  lemma {:induction false} RemoveAttrKeeps(attrs: seq<Attr>, name: string)
    ensures forall a :: a in RemoveAttr(attrs, name) <==> a in attrs && a.name != name
    ensures Lacks(RemoveAttr(attrs, name), name)
  {
    if attrs != [] {
      RemoveAttrKeeps(attrs[1..], name);
      assert attrs == [attrs[0]] + attrs[1..];
    }
  }

  /** Removing a name the element does not carry changes nothing. */
  lemma {:induction false} RemoveAttrAbsent(attrs: seq<Attr>, name: string)
    requires Lacks(attrs, name)
    ensures RemoveAttr(attrs, name) == attrs
  {
    if attrs != [] {
      RemoveAttrAbsent(attrs[1..], name);
      assert attrs == [attrs[0]] + attrs[1..];
    }
  }

  /** Removal works piecewise: on a concatenation it is the concatenation of the removals. */
  lemma {:induction false} RemoveAttrAppend(front: seq<Attr>, back: seq<Attr>, name: string)
    ensures RemoveAttr(front + back, name) == RemoveAttr(front, name) + RemoveAttr(back, name)
  {
    if front != [] {
      var tail, both := front[1..], front + back;
      assert both[0] == front[0] && both[1..] == tail + back;
      RemoveAttrAppend(tail, back, name);
      var x, y := RemoveAttr(tail, name), RemoveAttr(back, name);
      if front[0].name == name {
        assert RemoveAttr(both, name) == x + y;
      } else {
        assert RemoveAttr(both, name) == [front[0]] + (x + y);
        assert [front[0]] + (x + y) == ([front[0]] + x) + y;
      }
    } else {
      assert front + back == back;
    }
  }

  /** Removing an attribute leaves the names of an element's attributes distinct. */
  lemma {:induction false} RemoveAttrUnique(attrs: seq<Attr>, name: string)
    requires UniqueNames(attrs)
    ensures UniqueNames(RemoveAttr(attrs, name))
  {
    if attrs != [] {
      var rest := attrs[1..];
      assert UniqueNames(rest) by {
        forall i, j | 0 <= i < j < |rest| ensures rest[i].name != rest[j].name {
          assert rest[i] == attrs[i + 1] && rest[j] == attrs[j + 1];
        }
      }
      RemoveAttrUnique(rest, name);
      RemoveAttrKeeps(rest, name);
      var r := RemoveAttr(rest, name);
      forall a | a in r ensures a.name != attrs[0].name {
        var k :| 0 <= k < |rest| && rest[k] == a;
        assert a == attrs[k + 1];
      }
      if attrs[0].name != name {
        var s := [attrs[0]] + r;
        forall i, j | 0 <= i < j < |s| ensures s[i].name != s[j].name {
          if i == 0 {
            assert s[j] == r[j - 1] && r[j - 1] in r;
          } else {
            assert s[i] == r[i - 1] && s[j] == r[j - 1];
          }
        }
      }
    }
  }

  /** When only the attribute at index i is called `name`, removing `name` removes exactly that one. */
  lemma RemoveAttrAt(attrs: seq<Attr>, name: string, i: nat)
    requires i < |attrs| && attrs[i].name == name
    requires Lacks(attrs[..i], name) && Lacks(attrs[i + 1..], name)
    ensures RemoveAttr(attrs, name) == attrs[..i] + attrs[i + 1..]
  {
    var front, back := attrs[..i], attrs[i + 1..];
    assert attrs == front + ([attrs[i]] + back);
    RemoveAttrAppend(front, [attrs[i]] + back, name);
    assert ([attrs[i]] + back)[1..] == back;
    RemoveAttrAbsent(front, name);
    RemoveAttrAbsent(back, name);
  }

  /** On an element, the attribute called `name` is the only one so called. */
  lemma OnlyOne(attrs: seq<Attr>, name: string, i: nat)
    requires UniqueNames(attrs) && i < |attrs| && attrs[i].name == name
    ensures Lacks(attrs[..i], name) && Lacks(attrs[i + 1..], name)
  {
    forall k | i + 1 <= k < |attrs| ensures attrs[k].name != name {
      assert attrs[i].name != attrs[k].name;
    }
    var after := attrs[i + 1..];
    forall k | 0 <= k < |after| ensures after[k].name != name {
      assert after[k] == attrs[i + 1 + k];
    }
  }
}
