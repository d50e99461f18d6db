/** The datafile object tree of tools_recon/assets_datafile.py: the cursor class R,
    parse_datafile, read_objects and flatten. */
module Datafile {
  import opened Wrappers
  import opened Bits
  import opened Words
  import opened Layout
  import opened Text

  const DAT_MAGIC: word := 0x414C4C2E
  const DAT_PROPERTY: word := 0x70726F70

  /** struct.error past the end; ValueError on the magic; NegativeSize marks the
      negative read lengths this model does not follow. */
  datatype Error = ShortRead | BadMagic | NegativeSize

  datatype Content = Data(bytes: seq<byte>) | Children(objs: seq<Obj>)

  datatype Obj = Obj(
    index: nat, path: string, name: Option<string>, typ: string,
    size: int, filesize: int, packedChunk: bool, props: map<string, string>,
    offset: nat, content: Content)

  /** fourcc: the four bytes of a word, highest first, as characters. */
  function Fourcc(w: word): string {
    Latin1(BeBytes(w))
  }

  /** The name part of a path: the NAME property unless absent or empty. */
  function Label(props: map<string, string>, idx: nat): string {
    if "NAME" in props && props["NAME"] != "" then props["NAME"] else "#" + Decimal(idx)
  }

  function NameOf(props: map<string, string>): Option<string> {
    if "NAME" in props then Some(props["NAME"]) else None
  }

  // ----- what reading means, on positions

  function GetL(b: seq<byte>, p: nat): (r: Result<int32, Error>)
    ensures r.Ok? <==> p + 4 <= |b|
  {
    if p + 4 <= |b| then Ok(Signed(BeWord(b[p..p + 4]))) else Err(ShortRead)
  }

  /** What is left to read; nothing once the cursor has run past the end. */
  function Left(b: seq<byte>, p: nat): nat {
    if p <= |b| then |b| - p + 1 else 0
  }

  /** The properties at p, added to `props`, and the type word after them. */
  function PropsAt(b: seq<byte>, p: nat, props: map<string, string>)
      : (r: Result<(word, map<string, string>, nat), Error>)
    ensures r.Ok? ==> p + 4 <= r.value.2 <= |b|
    decreases Left(b, p)
  {
    var t :- GetL(b, p);
    if Unsigned(t) != DAT_PROPERTY then Ok((Unsigned(t), props, p + 4))
    else
      var ptype :- GetL(b, p + 4);
      var psize :- GetL(b, p + 8);
      if psize < 0 then Err(NegativeSize)
      else PropsAt(b, p + 12 + psize, props[Fourcc(Unsigned(ptype)) := Latin1(Slice(b, p + 12, p + 12 + psize))])
  }

  function ObjectAt(b: seq<byte>, p: nat, prefix: string, idx: nat): (r: Result<(Obj, nat), Error>)
    ensures r.Ok? ==> p + 12 <= |b| && p + 12 <= r.value.1
    decreases Left(b, p), 0
  {
    var (t, props, q) :- PropsAt(b, p, map[]);
    var filesize :- GetL(b, q);
    var datasize :- GetL(b, q + 4);
    var offset := q + 8;
    var path := prefix + Label(props, idx);
    var obj := Obj(idx, path, NameOf(props), Fourcc(t), datasize, filesize,
                   filesize != datasize, props, offset, Data([]));
    if Fourcc(t) == "FILE" then
      var (children, e) :- ObjectsAt(b, offset, path + "/");
      Ok((obj.(content := Children(children)), if offset + datasize >= e then offset + datasize else e))
    else if datasize < 0 then Err(NegativeSize)
    else Ok((obj.(content := Data(Slice(b, offset, offset + datasize))), offset + datasize))
  }

  function ObjectsAt(b: seq<byte>, p: nat, prefix: string): (r: Result<(seq<Obj>, nat), Error>)
    ensures r.Ok? ==> p + 4 <= |b| && p + 4 <= r.value.1
    decreases Left(b, p), 0
  {
    var count :- GetL(b, p);
    ObjectsFrom(b, p + 4, prefix, 0, count)
  }

  /** Objects number idx, idx + 1, ... up to count, the first of them at p. */
  function ObjectsFrom(b: seq<byte>, p: nat, prefix: string, idx: nat, count: int)
      : (r: Result<(seq<Obj>, nat), Error>)
    ensures r.Ok? ==> p <= r.value.1
    decreases Left(b, p), 1
  {
    if idx >= count then Ok(([], p))
    else
      var (o, q) :- ObjectAt(b, p, prefix, idx);
      var (os, e) :- ObjectsFrom(b, q, prefix, idx + 1, count);
      Ok(([o] + os, e))
  }

  function Parsed(body: seq<byte>): Result<seq<Obj>, Error> {
    var magic :- GetL(body, 0);
    if Unsigned(magic) != DAT_MAGIC then Err(BadMagic)
    else
      var (objs, e) :- ObjectsAt(body, 4, "");
      Ok(objs)
  }

  // ----- the cursor and the reader over it

  class R {
    const b: seq<byte>
    var p: nat

    constructor (b: seq<byte>)
      ensures this.b == b && p == 0
    {
      this.b := b;
      p := 0;
    }

    method MGetL() returns (v: Result<int32, Error>)
      modifies this
      ensures v == GetL(b, old(p))
      ensures p == if v.Ok? then old(p) + 4 else old(p)
    {
      if p + 4 > |b| {
        return Err(ShortRead);
      }
      v := Ok(Signed(BeWord(b[p..p + 4])));
      p := p + 4;
    }

    method Read(n: nat) returns (d: seq<byte>)
      modifies this
      ensures d == Slice(b, old(p), old(p) + n) && p == old(p) + n
    {
      d := if p >= |b| then [] else if p + n <= |b| then b[p..p + n] else b[p..];
      p := p + n;
    }
  }

  /** The `while True` loop over properties; returns the type word that ends it. */
  method ReadProps(r: R) returns (res: Result<(word, map<string, string>), Error>)
    modifies r
    ensures match PropsAt(r.b, old(r.p), map[])
            case Ok((t, props, q)) => res == Ok((t, props)) && r.p == q
            case Err(e) => res == Err(e)
  {
    hide Fourcc, Latin1, Slice, Unsigned, Signed, BeWord;
    var props := map[];
    while true
      invariant PropsAt(r.b, old(r.p), map[]) == PropsAt(r.b, r.p, props)
      decreases Left(r.b, r.p)
    {
      var t :- r.MGetL();
      if Unsigned(t) != DAT_PROPERTY {
        return Ok((Unsigned(t), props));
      }
      var ptype :- r.MGetL();
      var psize :- r.MGetL();
      if psize < 0 {
        return Err(NegativeSize);
      }
      var pdata := r.Read(psize);
      props := props[Fourcc(Unsigned(ptype)) := Latin1(pdata)];
    }
  }

  function Prepend(out: seq<Obj>, r: Result<(seq<Obj>, nat), Error>): Result<(seq<Obj>, nat), Error> {
    var (os, e) :- r;
    Ok((out + os, e))
  }

  /** The body of the loop over objects. */
  method ReadObject(r: R, prefix: string, idx: nat) returns (res: Result<Obj, Error>)
    modifies r
    ensures match ObjectAt(r.b, old(r.p), prefix, idx)
            case Ok((o, e)) => res == Ok(o) && r.p == e
            case Err(e) => res == Err(e)
    decreases Left(r.b, r.p), 0
  {
    hide ObjectsAt, PropsAt, Fourcc, Label, Slice;
    var head :- ReadProps(r);
    var (t, props) := head;
    var filesize :- r.MGetL();
    var datasize :- r.MGetL();
    var obj := Obj(idx, prefix + Label(props, idx), NameOf(props), Fourcc(t), datasize, filesize,
                   filesize != datasize, props, r.p, Data([]));
    if obj.typ == "FILE" {
      var end := r.p + datasize;
      var children :- ReadObjects(r, obj.path + "/");
      obj := obj.(content := Children(children));
      r.p := if end >= r.p then end else r.p;
    } else if datasize < 0 {
      return Err(NegativeSize);
    } else {
      var data := r.Read(datasize);
      obj := obj.(content := Data(data));
    }
    return Ok(obj);
  }

  method ReadObjects(r: R, prefix: string) returns (res: Result<seq<Obj>, Error>)
    modifies r
    ensures match ObjectsAt(r.b, old(r.p), prefix)
            case Ok((objs, e)) => res == Ok(objs) && r.p == e
            case Err(e) => res == Err(e)
    decreases Left(r.b, r.p), 0
  {
    hide ObjectAt, ObjectsFrom, Prepend;
    var count :- r.MGetL();
    var out: seq<Obj> := [];
    var idx := 0;
    ghost var all := ObjectsFrom(r.b, r.p, prefix, 0, count);
    PrependNothing(all);
    while idx < count
      invariant r.p > old(r.p)
      invariant all == Prepend(out, ObjectsFrom(r.b, r.p, prefix, idx, count))
    {
      PrependStep(r.b, r.p, prefix, idx, count, out);
      var obj :- ReadObject(r, prefix, idx);
      out := out + [obj];
      idx := idx + 1;
    }
    PrependDone(r.b, r.p, prefix, idx, count, out);
    return Ok(out);
  }

  lemma PrependNothing(r: Result<(seq<Obj>, nat), Error>)
    ensures Prepend([], r) == r
  {
    if r.Ok? { assert [] + r.value.0 == r.value.0; }
  }

  lemma PrependDone(b: seq<byte>, p: nat, prefix: string, idx: nat, count: int, out: seq<Obj>)
    requires idx >= count
    ensures Prepend(out, ObjectsFrom(b, p, prefix, idx, count)) == Ok((out, p))
  {
    assert out + [] == out;
  }

  lemma PrependStep(b: seq<byte>, p: nat, prefix: string, idx: nat, count: int, out: seq<Obj>)
    requires idx < count
    ensures Prepend(out, ObjectsFrom(b, p, prefix, idx, count))
            == match ObjectAt(b, p, prefix, idx)
               case Ok((o, q)) => Prepend(out + [o], ObjectsFrom(b, q, prefix, idx + 1, count))
               case Err(e) => Err(e)
  {
    hide ObjectAt;
    var first := ObjectAt(b, p, prefix, idx);
    if first.Ok? {
      var rest := ObjectsFrom(b, first.value.1, prefix, idx + 1, count);
      if rest.Ok? {
        assert out + ([first.value.0] + rest.value.0) == out + [first.value.0] + rest.value.0;
      }
    }
  }

  method ParseDatafile(body: seq<byte>) returns (res: Result<seq<Obj>, Error>)
    ensures res == Parsed(body)
  {
    var r := new R(body);
    var magic :- r.MGetL();
    if Unsigned(magic) != DAT_MAGIC {
      return Err(BadMagic);
    }
    res := ReadObjects(r, "");
  }

  // ----- flatten

  function Preorder(objs: seq<Obj>): seq<Obj> {
    if objs == [] then [] else PreorderOf(objs[0]) + Preorder(objs[1..])
  }

  function PreorderOf(o: Obj): seq<Obj> {
    [o] + (if o.content.Children? then Preorder(o.content.objs) else [])
  }

  lemma PreorderOfForm(o: Obj)
    ensures PreorderOf(o) == if o.content.Children? && o.content.objs != [] then [o] + Preorder(o.content.objs)
                             else [o]
  {
  }

  lemma FlattenStep(objs: seq<Obj>, i: nat, before: seq<Obj>, total: seq<Obj>)
    requires i < |objs| && before + Preorder(objs[i..]) == total
    ensures before + PreorderOf(objs[i]) + Preorder(objs[i + 1..]) == total
  {
    var x, y := PreorderOf(objs[i]), Preorder(objs[i + 1..]);
    assert objs[i..][1..] == objs[i + 1..];
    assert Preorder(objs[i..]) == x + y;
    hide *;
    assert before + x + y == before + (x + y);
  }

  method Flatten(objs: seq<Obj>, acc: seq<Obj>) returns (all: seq<Obj>)
    ensures all == acc + Preorder(objs)
    decreases objs
  {
    hide Preorder, PreorderOf;
    ghost var total := acc + Preorder(objs);
    all := acc;
    FlattenEnds(objs, acc);
    for i := 0 to |objs|
      invariant all + Preorder(objs[i..]) == total
    {
      var o := objs[i];
      FlattenStep(objs, i, all, total);
      PreorderOfForm(o);
      ghost var before := all;
      all := all + [o];
      if o.content.Children? && o.content.objs != [] {
        all := Flatten(o.content.objs, all);
        assert before + [o] + Preorder(o.content.objs) == before + PreorderOf(o);
      }
    }
    FlattenEnds(objs, all);
  }

  lemma FlattenEnds(objs: seq<Obj>, all: seq<Obj>)
    ensures Preorder(objs[0..]) == Preorder(objs)
    ensures all + Preorder(objs[|objs|..]) == all
  {
    assert objs[0..] == objs;
    assert Preorder(objs[|objs|..]) == [];
    hide *;
  }
}
