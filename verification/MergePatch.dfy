/**
 The MMDS data store's merge patch (crates/mmds/src/data_store.rs) against the algorithm of
 section 2 of RFC 7396.
 */
module MergePatch {
  import opened Outcomes

  /** A JSON value; numbers are kept as their literal text. */
  datatype Json =
    | Null
    | Bool(b: bool)
    | Number(literal: string)
    | Str(text: string)
    | Array(items: seq<Json>)
    | Object(members: map<string, Json>)

  /** A member's value; a missing member counts as null. */
  function Member(m: map<string, Json>, k: string): Json {
    if k in m then m[k] else Null
  }

  // ---- the standard --------------------------------------------------------------------------

  /** `MergePatch(Target, Patch)`: a target that is not an object is treated as the empty object. */
  function Rfc7396(target: Json, patch: Json): Json
    decreases patch
  {
    if !patch.Object? then patch
    else
      var t := if target.Object? then target.members else map[];
      var p := patch.members;
      Object(map k <- t.Keys + p.Keys | (k in p ==> !p[k].Null?)
             :: if k in p then Rfc7396(Member(t, k), p[k]) else t[k])
  }

  // ---- the code ------------------------------------------------------------------------------

  /** What the code computes: a target that is not an object is replaced by the patch as it stands. */
  function Merge(target: Json, patch: Json): Json
    decreases patch
  {
    if target.Object? && patch.Object? then
      var t, p := target.members, patch.members;
      Object(map k <- t.Keys + p.Keys | (k in p ==> !p[k].Null?)
             :: if k in p then Merge(Member(t, k), p[k]) else t[k])
    else patch
  }

  /** The recursive, in-place form: patch members are applied one at a time to the target's map. */
  method MergeInto(target: Json, patch: Json) returns (r: Json)
    ensures r == Merge(target, patch)
    decreases patch
  {
    if !(target.Object? && patch.Object?) {
      return patch;
    }
    var t, p := target.members, patch.members;
    var todo := p.Keys;
    ghost var done: set<string> := {};
    while todo != {}
      invariant done + todo == p.Keys && done !! todo
      invariant forall k :: k in t <==> k in MergedKeys(target.members, p, done)
      invariant forall k :: k in t ==>
                  t[k] == if k in done then Merge(Member(target.members, k), p[k]) else target.members[k]
      decreases todo
    {
      var k :| k in todo;
      var pv := p[k];
      if pv.Null? {
        t := t - {k};
      } else {
        var entry := MergeInto(Member(t, k), pv);
        t := t[k := entry];
      }
      todo, done := todo - {k}, done + {k};
    }
    assert done == p.Keys;
    r := Object(t);
    assert t == Merge(target, patch).members;
  }

  /** The keys present once the patch members `done` have been applied. */
  ghost function MergedKeys(t: map<string, Json>, p: map<string, Json>, done: set<string>): set<string>
    requires done <= p.Keys
  {
    set k <- t.Keys + done | (k in done ==> !p[k].Null?)
  }

  // ---- where they agree ------------------------------------------------------------------------

  /** No object in it, at any depth of nested objects, has a null member. */
  ghost predicate NullFree(j: Json)
    decreases j
  {
    j.Object? ==> forall k <- j.members :: !j.members[k].Null? && NullFree(j.members[k])
  }

  /** Wherever a patch object meets a target that is not an object, the patch object is null-free. */
  ghost predicate Conforms(target: Json, patch: Json)
    decreases patch
  {
    patch.Object? ==>
      if target.Object? then
        forall k <- patch.members :: !patch.members[k].Null? ==>
          Conforms(Member(target.members, k), patch.members[k])
      else NullFree(patch)
  }

  /** Applied to a non-object, the standard strips nulls: it keeps the patch exactly if there are none. */
  lemma {:induction false} StripKeepsIff(target: Json, patch: Json)
    requires !target.Object?
    ensures Rfc7396(target, patch) == patch <==> NullFree(patch)
    decreases patch
  {
    if patch.Object? {
      var p, r := patch.members, Rfc7396(target, patch).members;
      forall k <- p
        ensures !p[k].Null? ==> k in r && r[k] == Rfc7396(Null, p[k])
        ensures Rfc7396(Null, p[k]) == p[k] <==> NullFree(p[k])
      {
        StripKeepsIff(Null, p[k]);
      }
      if NullFree(patch) {
        assert r == p;
      } else {
        var k :| k in p && !(!p[k].Null? && NullFree(p[k]));
        assert k !in r || r[k] != p[k];
      }
    }
  }

  /** The code is RFC 7396 exactly where no null would have to be stripped. */
  lemma {:induction false} MergeIsRfcIff(target: Json, patch: Json)
    ensures Merge(target, patch) == Rfc7396(target, patch) <==> Conforms(target, patch)
    decreases patch
  {
    if patch.Object? {
      if !target.Object? {
        StripKeepsIff(target, patch);
      } else {
        var t, p := target.members, patch.members;
        var a, b := Merge(target, patch).members, Rfc7396(target, patch).members;
        forall k <- p
          ensures Merge(Member(t, k), p[k]) == Rfc7396(Member(t, k), p[k]) <==> Conforms(Member(t, k), p[k])
        {
          MergeIsRfcIff(Member(t, k), p[k]);
        }
        if Conforms(target, patch) {
          assert a == b;
        } else {
          var k :| k in p && !p[k].Null? && !Conforms(Member(t, k), p[k]);
          assert a[k] != b[k];
        }
      }
    }
  }

  lemma {:induction false} SelfMergeKeepsIff(patch: Json)
    ensures Merge(patch, patch) == patch <==> NullFree(patch)
    decreases patch
  {
    if patch.Object? {
      var p, r := patch.members, Merge(patch, patch).members;
      forall k <- p
        ensures Merge(p[k], p[k]) == p[k] <==> NullFree(p[k])
      {
        SelfMergeKeepsIff(p[k]);
      }
      if NullFree(patch) {
        assert r == p;
      } else {
        var k :| k in p && !(!p[k].Null? && NullFree(p[k]));
        assert k !in r || r[k] != p[k];
      }
    }
  }

  /** Applying the same patch twice changes nothing more, under the very same condition. */
  lemma {:induction false} IdempotentIff(target: Json, patch: Json)
    ensures Merge(Merge(target, patch), patch) == Merge(target, patch) <==> Conforms(target, patch)
    decreases patch
  {
    if patch.Object? {
      if !target.Object? {
        SelfMergeKeepsIff(patch);
      } else {
        var t, p := target.members, patch.members;
        var once := Merge(target, patch);
        var a, b := once.members, Merge(once, patch).members;
        forall k <- p
          ensures Merge(Merge(Member(t, k), p[k]), p[k]) == Merge(Member(t, k), p[k]) <==> Conforms(Member(t, k), p[k])
        {
          IdempotentIff(Member(t, k), p[k]);
        }
        assert a.Keys == b.Keys;
        if Conforms(target, patch) {
          assert a == b;
        } else {
          var k :| k in p && !p[k].Null? && !Conforms(Member(t, k), p[k]);
          assert a[k] == Merge(Member(t, k), p[k]) && b[k] == Merge(a[k], p[k]);
        }
      }
    }
  }

  /** A patch that shows the difference: a null nested in a member the target does not have. */
  lemma NestedNullIsCopied()
    ensures var patch := Object(map["a" := Object(map["b" := Null])]);
            Merge(Object(map[]), patch) == patch
            && Rfc7396(Object(map[]), patch) == Object(map["a" := Object(map[])])
  {
    var inner := Object(map["b" := Null]);
    var patch := Object(map["a" := inner]);
    assert Rfc7396(Null, inner).members == map[];
    assert Merge(Null, inner) == inner;
    assert Merge(Object(map[]), patch).members == map["a" := inner];
    assert Rfc7396(Object(map[]), patch).members == map["a" := Object(map[])];
  }

  // ---- the store -----------------------------------------------------------------------------

  datatype StoreError = InvalidJson | OverCap(cap: nat, got: nat)
  datatype Stored = Stored | Refused(error: StoreError)

  /** The shared tree.  Parsing and the serialised size are library code and come in as arguments. */
  class Mmds {
    var data: Json
    const sizeCap: nat

    constructor (sizeCap: nat)
      ensures this.sizeCap == sizeCap && data == Object(map[])
    {
      this.sizeCap, data := sizeCap, Object(map[]);
    }

    method PutJson(bodyLen: nat, parsed: Option<Json>) returns (r: Stored)
      modifies this`data
      ensures r == if bodyLen > sizeCap then Refused(OverCap(sizeCap, bodyLen))
                   else if parsed.None? then Refused(InvalidJson) else Stored
      ensures data == if r.Stored? then parsed.value else old(data)
    {
      if bodyLen > sizeCap {
        return Refused(OverCap(sizeCap, bodyLen));
      }
      if parsed.None? {
        return Refused(InvalidJson);
      }
      data := parsed.value;
      return Stored;
    }

    /** The tree becomes the merged tree if that fits the cap, and is untouched otherwise. */
    method PatchJson(parsed: Option<Json>, size: Json -> nat) returns (r: Stored)
      modifies this`data
      ensures r.Stored? <==> parsed.Some? && size(Merge(old(data), parsed.value)) <= sizeCap
      ensures data == if r.Stored? then Merge(old(data), parsed.value) else old(data)
      ensures r.Refused? ==> r.error == if parsed.None? then InvalidJson
                                        else OverCap(sizeCap, size(Merge(old(data), parsed.value)))
    {
      if parsed.None? {
        return Refused(InvalidJson);
      }
      var merged := MergeInto(data, parsed.value);
      if size(merged) > sizeCap {
        return Refused(OverCap(sizeCap, size(merged)));
      }
      data := merged;
      return Stored;
    }
  }
}
