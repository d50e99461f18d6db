/** What every successful parse of a datafile guarantees about the cursor, the
    offsets and the payloads, whatever the input bytes. */
module DatafileSafety {
  import opened Bits
  import opened Layout
  import opened Datafile

  /** How far the bytes of an object's own payload reach; a directory's payload
      starts with the four bytes of its count. */
  function Extent(o: Obj): int {
    if o.content.Data? then o.size else 4
  }

  /** A flattened list read between two cursor positions: payloads lie inside, each
      leaf holds the bytes at its offset, and each next object starts behind the
      payload before it and its own twelve header bytes. */
  ghost predicate Laid(b: seq<byte>, os: seq<Obj>, lo: nat, hi: nat) {
    lo <= hi &&
    (forall i :: 0 <= i < |os| ==> InPlace(b, os[i], lo, hi)) &&
    (forall i, j :: 0 <= i < j < |os| ==> os[i].offset + Extent(os[i]) + 12 <= os[j].offset)
  }

  ghost predicate InPlace(b: seq<byte>, o: Obj, lo: nat, hi: nat) {
    lo + 12 <= o.offset && 0 <= Extent(o) && o.offset + Extent(o) <= hi &&
    (o.content.Data? ==> o.content.bytes == Slice(b, o.offset, o.offset + o.size))
  }

  lemma LaidAppend(b: seq<byte>, xs: seq<Obj>, ys: seq<Obj>, lo: nat, mid: nat, hi: nat)
    requires Laid(b, xs, lo, mid) && Laid(b, ys, mid, hi)
    ensures Laid(b, xs + ys, lo, hi)
  {
    var os := xs + ys;
    forall i | 0 <= i < |os|
      ensures InPlace(b, os[i], lo, hi)
    {
      if i < |xs| {
        assert InPlace(b, xs[i], lo, mid);
      } else {
        assert InPlace(b, ys[i - |xs|], mid, hi);
      }
    }
    forall i, j | 0 <= i < j < |os|
      ensures os[i].offset + Extent(os[i]) + 12 <= os[j].offset
    {
      if i < |xs| <= j {
        assert InPlace(b, xs[i], lo, mid) && InPlace(b, ys[j - |xs|], mid, hi);
      } else if i >= |xs| {
        assert os[i] == ys[i - |xs|] && os[j] == ys[j - |xs|];
      }
    }
  }

  lemma LaidWider(b: seq<byte>, os: seq<Obj>, lo: nat, hi: nat, lo': nat, hi': nat)
    requires Laid(b, os, lo, hi) && lo' <= lo && hi <= hi'
    ensures Laid(b, os, lo', hi')
  {
    forall i | 0 <= i < |os|
      ensures InPlace(b, os[i], lo', hi')
    {
      assert InPlace(b, os[i], lo, hi);
    }
  }

  lemma {:induction false} ObjectLaid(b: seq<byte>, p: nat, prefix: string, idx: nat)
    requires ObjectAt(b, p, prefix, idx).Ok?
    ensures var (o, e) := ObjectAt(b, p, prefix, idx).value;
            o.index == idx && Laid(b, PreorderOf(o), p, e)
    decreases Left(b, p), 0
  {
    hide PropsAt, GetL, Fourcc, Label, ObjectsAt, Preorder, Slice, Laid;
    var (o, e) := ObjectAt(b, p, prefix, idx).value;
    var (t, props, q) := PropsAt(b, p, map[]).value;
    assert o.offset == q + 8;
    if o.content.Children? {
      ObjectsLaid(b, o.offset, o.path + "/");
      var children := o.content.objs;
      var e' := ObjectsAt(b, o.offset, o.path + "/").value.1;
      assert e >= e' >= o.offset + 4;
      SingleLaid(b, o, p, o.offset + 4);
      LaidAppend(b, [o], Preorder(children), p, o.offset + 4, e');
      LaidWider(b, PreorderOf(o), p, e', p, e);
    } else {
      SingleLaid(b, o, p, e);
      assert PreorderOf(o) == [o];
    }
  }

  lemma SingleLaid(b: seq<byte>, o: Obj, lo: nat, hi: nat)
    requires InPlace(b, o, lo, hi)
    ensures Laid(b, [o], lo, hi)
  {
  }

  lemma {:induction false} ObjectsLaid(b: seq<byte>, p: nat, prefix: string)
    requires ObjectsAt(b, p, prefix).Ok?
    ensures var (os, e) := ObjectsAt(b, p, prefix).value;
            p + 4 <= e && Laid(b, Preorder(os), p + 4, e)
    decreases Left(b, p), 0
  {
    ObjectsFromLaid(b, p + 4, prefix, 0, GetL(b, p).value);
  }

  lemma {:induction false} ObjectsFromLaid(b: seq<byte>, p: nat, prefix: string, idx: nat, count: int)
    requires ObjectsFrom(b, p, prefix, idx, count).Ok?
    ensures var (os, e) := ObjectsFrom(b, p, prefix, idx, count).value;
            |os| == (if idx < count then count - idx else 0)
            && (forall k :: 0 <= k < |os| ==> os[k].index == idx + k)
            && Laid(b, Preorder(os), p, e)
    decreases Left(b, p), 1
  {
    if idx < count {
      var (o, q) := ObjectAt(b, p, prefix, idx).value;
      var (os, e) := ObjectsFrom(b, q, prefix, idx + 1, count).value;
      ObjectLaid(b, p, prefix, idx);
      ObjectsFromLaid(b, q, prefix, idx + 1, count);
      LaidAppend(b, PreorderOf(o), Preorder(os), p, q, e);
      assert ([o] + os)[1..] == os;
    }
  }

  /** Every successful parse: in the flattened list, offsets strictly increase,
      payloads do not overlap and leaves hold the bytes at their offsets. */
  lemma ParseIsLaid(body: seq<byte>)
    requires Parsed(body).Ok?
    ensures var os := Preorder(Parsed(body).value);
            (forall i, j :: 0 <= i < j < |os| ==> os[i].offset < os[j].offset)
            && (forall i, j :: 0 <= i < j < |os| && os[i].content.Data?
                               ==> os[i].offset + os[i].size <= os[j].offset)
            && (forall i :: 0 <= i < |os| && os[i].content.Data?
                            ==> os[i].size >= 0 && os[i].content.bytes == Slice(body, os[i].offset, os[i].offset + os[i].size))
  {
    ObjectsLaid(body, 4, "");
    var e := ObjectsAt(body, 4, "").value.1;
    var os := Preorder(Parsed(body).value);
    forall i | 0 <= i < |os|
      ensures InPlace(body, os[i], 8, e)
    {
    }
  }

  /** An object occurs in a tree at the top or inside one of its directories. */
  ghost predicate Within(o: Obj, objs: seq<Obj>) {
    exists i :: 0 <= i < |objs| && Inside(o, objs[i])
  }

  ghost predicate Inside(o: Obj, top: Obj) {
    o == top || (top.content.Children? && Within(o, top.content.objs))
  }

  /** flatten lists exactly the objects of the tree. */
  lemma {:induction false} PreorderComplete(o: Obj, objs: seq<Obj>)
    ensures o in Preorder(objs) <==> Within(o, objs)
    decreases objs, 1
  {
    if objs != [] {
      var top, rest := objs[0], objs[1..];
      PreorderOfComplete(o, top);
      PreorderComplete(o, rest);
      if Within(o, rest) {
        var i :| 0 <= i < |rest| && Inside(o, rest[i]);
        assert Inside(o, objs[i + 1]);
      }
      if Within(o, objs) && !Inside(o, top) {
        var i :| 0 <= i < |objs| && Inside(o, objs[i]);
        assert Inside(o, rest[i - 1]);
      }
    }
  }

  lemma {:induction false} PreorderOfComplete(o: Obj, top: Obj)
    ensures o in PreorderOf(top) <==> Inside(o, top)
    decreases top, 0
  {
    if top.content.Children? { PreorderComplete(o, top.content.objs); }
  }
}
