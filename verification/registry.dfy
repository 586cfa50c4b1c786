/**
  The server's `users` registry: a JavaScript `Map` from `socket.id` to the
  user record `{ id, username }`. A `Map` enumerates in insertion order,
  `set` on a present key overwrites the value where it stands, and `delete`
  removes the entry and closes the gap, so the registry is modelled as an
  insertion-ordered list of users whose ids are distinct. Because every
  entry's key is the `id` of the user stored under it, the list itself is
  what `Array.from(users.values())` returns.
 */
module Registry {
  import opened ChatTypes

  type Users = seq<User>

  /** Keys of a `Map` are distinct. */
  predicate Wellformed(r: Users)
  {
    forall i, j :: 0 <= i < j < |r| ==> r[i].id != r[j].id
  }

  predicate Has(r: Users, id: ConnId)
  {
    exists i :: 0 <= i < |r| && r[i].id == id
  }

  /** `users.get(id)`: the entry stored under `id`, if any. */
  function Get(r: Users, id: ConnId): (u: Option<User>)
    ensures u.Some? <==> Has(r, id)
    ensures u.Some? ==> u.value.id == id && u.value in r
    ensures Wellformed(r) ==> forall i :: 0 <= i < |r| && r[i].id == id ==> u == Some(r[i])
    decreases |r|
  {
    if |r| == 0 then None
    else if r[0].id == id then Some(r[0])
    else
      var u := Get(r[1..], id);
      assert forall i :: 1 <= i < |r| ==> r[1..][i - 1] == r[i];
      u
  }

  /** `users.set(u.id, u)`: an existing entry for `u.id` is overwritten in
      its place; otherwise `u` is appended at the end. */
  function Set(r: Users, u: User): (r': Users)
    requires Wellformed(r)
    ensures Wellformed(r')
    ensures Get(r', u.id) == Some(u)
    ensures forall id :: id != u.id ==> Get(r', id) == Get(r, id)
    ensures Has(r, u.id) ==> |r'| == |r| && forall i :: 0 <= i < |r| ==> r'[i] == if r[i].id == u.id then u else r[i]
    ensures !Has(r, u.id) ==> |r'| == |r| + 1 && r'[..|r|] == r && r'[|r|] == u
  {
    if Has(r, u.id) then
      var r' := seq(|r|, i requires 0 <= i < |r| => if r[i].id == u.id then u else r[i]);
      OverwriteLookups(r, u, r');
      r'
    else
      var r' := r + [u];
      assert r'[..|r|] == r && r'[|r|] == u;
      assert Wellformed(r');
      GetOfWellformed(r', u.id);
      r'
  }

  /** Lookups after an in-place overwrite: the overwritten key finds the new
      record, every other key finds what it found before. */
  lemma OverwriteLookups(r: Users, u: User, r': Users)
    requires Wellformed(r) && Has(r, u.id)
    requires |r'| == |r|
    requires forall i :: 0 <= i < |r| ==> r'[i] == if r[i].id == u.id then u else r[i]
    ensures Wellformed(r')
    ensures Get(r', u.id) == Some(u)
    ensures forall id :: id != u.id ==> Get(r', id) == Get(r, id)
  {
    assert forall i :: 0 <= i < |r| ==> r'[i].id == r[i].id;
    assert Wellformed(r');
    var k :| 0 <= k < |r| && r[k].id == u.id;
    assert r'[k] == u;
    GetOfWellformed(r', u.id);
    forall id | id != u.id
      ensures Get(r', id) == Get(r, id)
    {
      if Has(r, id) {
        var j :| 0 <= j < |r| && r[j].id == id;
        assert r'[j] == r[j];
        GetOfWellformed(r, id);
        GetOfWellformed(r', id);
      } else {
        assert !Has(r', id);
      }
    }
  }

  /** In a wellformed registry, `Get` returns the entry at whichever position
      holds the id. */
  lemma GetOfWellformed(r: Users, id: ConnId)
    requires Wellformed(r)
    ensures forall i :: 0 <= i < |r| && r[i].id == id ==> Get(r, id) == Some(r[i])
  {
  }

  /** `users.delete(id)`: every entry except the one for `id`, in order. */
  function Delete(r: Users, id: ConnId): (r': Users)
    ensures |r'| <= |r|
    decreases |r|
  {
    if |r| == 0 then []
    else if r[0].id == id then Delete(r[1..], id)
    else [r[0]] + Delete(r[1..], id)
  }

  /** `delete(id)` removes the key, keeps exactly the other entries, and the
      keys left are still distinct. */
  lemma {:induction false} DeleteMembers(r: Users, id: ConnId)
    ensures !Has(Delete(r, id), id)
    ensures forall v :: v in Delete(r, id) <==> v in r && v.id != id
    ensures Wellformed(r) ==> Wellformed(Delete(r, id))
    decreases |r|
  {
    if |r| > 0 {
      var rest := Delete(r[1..], id);
      DeleteMembers(r[1..], id);
      assert r == [r[0]] + r[1..];
      if Wellformed(r) {
        assert Wellformed(r[1..]) by {
          forall i, j | 0 <= i < j < |r| - 1 ensures r[1..][i].id != r[1..][j].id {
            assert r[1..][i] == r[i + 1] && r[1..][j] == r[j + 1];
          }
        }
        forall v | v in rest ensures v.id != r[0].id {
          var j :| 0 <= j < |r| - 1 && r[1..][j] == v;
          assert r[j + 1] == v;
        }
      }
      if r[0].id != id {
        var r' := [r[0]] + rest;
        assert forall i :: 0 < i < |r'| ==> r'[i] == rest[i - 1];
        assert !Has(r', id) by {
          forall i | 0 <= i < |r'| ensures r'[i].id != id {
            if i > 0 {
              assert r'[i] == rest[i - 1];
            }
          }
        }
        if Wellformed(r) {
          forall i, j | 0 <= i < j < |r'| ensures r'[i].id != r'[j].id {
            assert r'[j] == rest[j - 1] && r'[j] in rest;
            if i > 0 {
              assert r'[i] == rest[i - 1];
            }
          }
        }
      }
    }
  }

  /** After `delete(id)` every other key finds what it found before. */
  lemma {:induction false} DeleteLookups(r: Users, id: ConnId, x: ConnId)
    requires x != id
    ensures Get(Delete(r, id), x) == Get(r, x)
    decreases |r|
  {
    if |r| > 0 {
      DeleteLookups(r[1..], id, x);
      if r[0].id != id {
        assert ([r[0]] + Delete(r[1..], id))[1..] == Delete(r[1..], id);
      }
    }
  }

  /** Deleting a present key removes exactly one entry and closes the gap:
      the entries before and after it keep their relative order. */
  lemma {:induction false} DeleteClosesGap(r: Users, k: nat)
    requires Wellformed(r) && k < |r|
    ensures Delete(r, r[k].id) == r[..k] + r[k + 1..]
    ensures |Delete(r, r[k].id)| == |r| - 1
    decreases |r|
  {
    var id := r[k].id;
    if k == 0 {
      DeleteHead(r);
      assert r[1..] == r[..0] + r[1..];
    } else {
      assert Delete(r, id) == [r[0]] + Delete(r[1..], id) by {
        assert r[0].id != id;
      }
      assert Wellformed(r[1..]) by {
        forall i, j | 0 <= i < j < |r[1..]| ensures r[1..][i].id != r[1..][j].id {
          assert r[1..][i] == r[i + 1] && r[1..][j] == r[j + 1];
        }
      }
      assert r[1..][k - 1] == r[k];
      DeleteClosesGap(r[1..], k - 1);
      assert r[1..][..k - 1] + r[1..][k..] == r[1..k] + r[k + 1..];
      assert [r[0]] + r[1..k] == r[..k];
    }
  }

  /** Deleting the first key leaves the rest as it was. */
  lemma DeleteHead(r: Users)
    requires Wellformed(r) && |r| > 0
    ensures Delete(r, r[0].id) == r[1..]
  {
    assert !Has(r[1..], r[0].id);
    DeleteAbsent(r[1..], r[0].id);
  }

  /** Deleting an absent key changes nothing. */
  lemma {:induction false} DeleteAbsent(r: Users, id: ConnId)
    requires !Has(r, id)
    ensures Delete(r, id) == r
    decreases |r|
  {
    if |r| > 0 {
      assert r[0].id != id;
      assert !Has(r[1..], id) by {
        forall i | 0 <= i < |r| - 1 ensures r[1..][i].id != id {
          assert r[1..][i] == r[i + 1];
        }
      }
      DeleteAbsent(r[1..], id);
      assert Delete(r, id) == [r[0]] + Delete(r[1..], id);
      assert [r[0]] + r[1..] == r;
    }
  }

}
