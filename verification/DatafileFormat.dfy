/** The bytes of a datafile, given by a printer of object trees, and what the
    reader makes of them. */
module DatafileFormat {
  import opened Wrappers
  import opened Bits
  import opened Words
  import opened Layout
  import opened Text
  import opened Datafile

  datatype Prop = Prop(typ: word, data: seq<byte>)

  datatype Tree = Tree(props: seq<Prop>, typ: word, filesize: int32, body: Body)

  /** A directory may be followed, inside its chunk, by bytes nobody reads. */
  datatype Body = Raw(data: seq<byte>) | File(children: seq<Tree>, slack: seq<byte>)

  // ----- printing

  function Be(n: nat): (b: seq<byte>)
    ensures |b| == 4
  {
    BeBytes(n % TWO32)
  }

  function PrintProps(ps: seq<Prop>): seq<byte> {
    if ps == [] then [] else PrintProp(ps[0]) + PrintProps(ps[1..])
  }

  function PrintProp(p: Prop): seq<byte> {
    Be(DAT_PROPERTY) + Be(p.typ) + Be(|p.data|) + p.data
  }

  function PrintTree(t: Tree): seq<byte> {
    PrintProps(t.props) + Be(t.typ) + Be(Unsigned(t.filesize)) + Be(|PrintBody(t.body)|) + PrintBody(t.body)
  }

  function PrintBody(body: Body): seq<byte> {
    match body
    case Raw(data) => data
    case File(children, slack) => Be(|children|) + PrintTrees(children) + slack
  }

  function PrintTrees(ts: seq<Tree>): seq<byte> {
    if ts == [] then [] else PrintTree(ts[0]) + PrintTrees(ts[1..])
  }

  function PrintDatafile(ts: seq<Tree>): seq<byte> {
    Be(DAT_MAGIC) + Be(|ts|) + PrintTrees(ts)
  }

  /** What the four-byte fields can express, and what tells objects from
      properties and directories from leaves. */
  predicate Sound(t: Tree) {
    t.typ != DAT_PROPERTY &&
    (forall p :: p in t.props ==> |p.data| < TWO31) &&
    |PrintBody(t.body)| < TWO31 &&
    (Fourcc(t.typ) == "FILE" <==> t.body.File?) &&
    (t.body.File? ==> AllSound(t.body.children))
  }

  predicate AllSound(ts: seq<Tree>) {
    |ts| < TWO31 && forall i :: 0 <= i < |ts| ==> Sound(ts[i])
  }

  // ----- the objects a printed tree stands for

  /** The property dictionary: the last value given for each type. */
  function Dictionary(ps: seq<Prop>, props: map<string, string>): map<string, string> {
    if ps == [] then props
    else Dictionary(ps[1..], props[Fourcc(ps[0].typ) := Latin1(ps[0].data)])
  }

  function ObjectOf(t: Tree, pos: nat, prefix: string, idx: nat): Obj {
    var props := Dictionary(t.props, map[]);
    var offset := pos + |PrintProps(t.props)| + 12;
    var path := prefix + Label(props, idx);
    Obj(idx, path, NameOf(props), Fourcc(t.typ), |PrintBody(t.body)|, t.filesize,
        t.filesize != |PrintBody(t.body)|, props, offset,
        match t.body
        case Raw(data) => Data(data)
        case File(children, _) => Children(ObjectsOf(children, offset + 4, path + "/", 0)))
  }

  function ObjectsOf(ts: seq<Tree>, pos: nat, prefix: string, idx: nat): (os: seq<Obj>)
    ensures |os| == |ts|
  {
    if ts == [] then []
    else [ObjectOf(ts[0], pos, prefix, idx)]
         + ObjectsOf(ts[1..], pos + |PrintTree(ts[0])|, prefix, idx + 1)
  }

  lemma FourccInjective(v: word, w: word)
    requires Fourcc(v) == Fourcc(w)
    ensures v == w
  {
    var a, b := BeBytes(v), BeBytes(w);
    forall i | 0 <= i < 4
      ensures a[i] == b[i]
    {
      assert Fourcc(v)[i] as int == a[i] && Fourcc(w)[i] as int == b[i];
    }
    assert a == b;
  }

  /** A property whose type does not come again is found under its own name. */
  lemma {:induction false} DictionaryHolds(ps: seq<Prop>, i: nat, props: map<string, string>)
    requires i < |ps| && forall k :: i < k < |ps| ==> ps[k].typ != ps[i].typ
    ensures var d := Dictionary(ps, props);
            Fourcc(ps[i].typ) in d && d[Fourcc(ps[i].typ)] == Latin1(ps[i].data)
    decreases |ps|
  {
    var next := props[Fourcc(ps[0].typ) := Latin1(ps[0].data)];
    if i > 0 {
      DictionaryHolds(ps[1..], i - 1, next);
    } else {
      DictionaryKeeps(ps[1..], ps[0].typ, next);
    }
  }

  lemma {:induction false} DictionaryKeeps(ps: seq<Prop>, t: word, props: map<string, string>)
    requires Fourcc(t) in props && forall k :: 0 <= k < |ps| ==> ps[k].typ != t
    ensures var d := Dictionary(ps, props);
            Fourcc(t) in d && d[Fourcc(t)] == props[Fourcc(t)]
    decreases |ps|
  {
    if ps != [] {
      if Fourcc(ps[0].typ) == Fourcc(t) { FourccInjective(ps[0].typ, t); }
      DictionaryKeeps(ps[1..], t, props[Fourcc(ps[0].typ) := Latin1(ps[0].data)]);
    }
  }

  // ----- reading undoes printing

  lemma GetBe(b: seq<byte>, p: nat, n: nat)
    requires At(b, p, Be(n)) && n < TWO32
    ensures GetL(b, p) == Ok(Signed(n)) && Unsigned(Signed(n)) == n
    ensures n < TWO31 ==> GetL(b, p) == Ok(n)
  {
    UnsignedSigned(n);
  }

  lemma AtSlice(b: seq<byte>, p: nat, s: seq<byte>)
    requires At(b, p, s)
    ensures Slice(b, p, p + |s|) == s
  {
  }

  lemma ReadsProp(b: seq<byte>, p: nat, q: Prop)
    requires At(b, p, PrintProp(q)) && |q.data| < TWO31
    ensures GetL(b, p).Ok? && Unsigned(GetL(b, p).value) == DAT_PROPERTY
    ensures GetL(b, p + 4).Ok? && Unsigned(GetL(b, p + 4).value) == q.typ
    ensures GetL(b, p + 8) == Ok(|q.data|) && Slice(b, p + 12, p + 12 + |q.data|) == q.data
    ensures |PrintProp(q)| == 12 + |q.data|
  {
    hide At, Be, Slice, GetL;
    AtSplit(b, p, Be(DAT_PROPERTY) + Be(q.typ) + Be(|q.data|), q.data);
    AtSplit(b, p, Be(DAT_PROPERTY) + Be(q.typ), Be(|q.data|));
    AtSplit(b, p, Be(DAT_PROPERTY), Be(q.typ));
    GetBe(b, p, DAT_PROPERTY);
    GetBe(b, p + 4, q.typ);
    GetBe(b, p + 8, |q.data|);
    AtSlice(b, p + 12, q.data);
  }

  lemma {:induction false} ReadsProps(b: seq<byte>, p: nat, ps: seq<Prop>, t: word, props: map<string, string>)
    requires At(b, p, PrintProps(ps) + Be(t)) && t != DAT_PROPERTY
    requires forall q :: q in ps ==> |q.data| < TWO31
    ensures PropsAt(b, p, props) == Ok((t, Dictionary(ps, props), p + |PrintProps(ps)| + 4))
    decreases |ps|
  {
    hide At, Be, Slice, GetL, PrintProp, Fourcc, Latin1;
    AtSplit(b, p, PrintProps(ps), Be(t));
    if ps == [] {
      GetBe(b, p, t);
    } else {
      var q := ps[0];
      var rest := PrintProps(ps[1..]);
      assert PrintProps(ps) + Be(t) == PrintProp(q) + (rest + Be(t));
      AtSplit(b, p, PrintProp(q), rest + Be(t));
      ReadsProp(b, p, q);
      ReadsProps(b, p + |PrintProp(q)|, ps[1..], t, props[Fourcc(q.typ) := Latin1(q.data)]);
    }
  }

  /** The fields of a printed tree before its body. */
  lemma ReadsHead(b: seq<byte>, p: nat, t: Tree)
    requires At(b, p, PrintTree(t)) && Sound(t)
    ensures var q := p + |PrintProps(t.props)| + 4;
            PropsAt(b, p, map[]) == Ok((t.typ, Dictionary(t.props, map[]), q))
            && GetL(b, q) == Ok(t.filesize)
            && GetL(b, q + 4) == Ok(|PrintBody(t.body)|)
            && At(b, q + 8, PrintBody(t.body))
            && p + |PrintTree(t)| == q + 8 + |PrintBody(t.body)|
  {
    hide At, Be, GetL, PropsAt, PrintProps, Dictionary, PrintBody, Fourcc;
    var ps, body := PrintProps(t.props), PrintBody(t.body);
    AtSplit(b, p, ps + Be(t.typ) + Be(Unsigned(t.filesize)) + Be(|body|), body);
    AtSplit(b, p, ps + Be(t.typ) + Be(Unsigned(t.filesize)), Be(|body|));
    AtSplit(b, p, ps + Be(t.typ), Be(Unsigned(t.filesize)));
    ReadsProps(b, p, t.props, t.typ, map[]);
    GetBe(b, p + |ps| + 4, Unsigned(t.filesize));
    GetBe(b, p + |ps| + 8, |body|);
  }

  lemma {:induction false} ReadsTree(b: seq<byte>, p: nat, t: Tree, prefix: string, idx: nat)
    requires At(b, p, PrintTree(t)) && Sound(t)
    ensures ObjectAt(b, p, prefix, idx) == Ok((ObjectOf(t, p, prefix, idx), p + |PrintTree(t)|))
    decreases t, 0
  {
    hide At, Be, GetL, PropsAt, PrintProps, PrintTree, PrintTrees, Dictionary, Fourcc, Label;
    hide Slice, ObjectsAt, ObjectsOf;
    ReadsHead(b, p, t);
    var offset := p + |PrintProps(t.props)| + 12;
    match t.body
    case Raw(data) =>
      AtSlice(b, offset, data);
    case File(children, slack) =>
      AtSplit(b, offset, Be(|children|) + PrintTrees(children), slack);
      var path := prefix + Label(Dictionary(t.props, map[]), idx);
      ReadPrinted(b, offset, children, path + "/");
  }

  lemma {:induction false} ReadsTrees(b: seq<byte>, p: nat, ts: seq<Tree>, prefix: string, idx: nat, count: nat)
    requires At(b, p, PrintTrees(ts)) && AllSound(ts) && idx + |ts| == count
    ensures ObjectsFrom(b, p, prefix, idx, count)
            == Ok((ObjectsOf(ts, p, prefix, idx), p + |PrintTrees(ts)|))
    decreases ts, 1
  {
    hide At, PrintTree, ObjectAt, ObjectOf, Sound;
    if ts != [] {
      AtSplit(b, p, PrintTree(ts[0]), PrintTrees(ts[1..]));
      ReadsTree(b, p, ts[0], prefix, idx);
      ReadsTrees(b, p + |PrintTree(ts[0])|, ts[1..], prefix, idx + 1, count);
    }
  }

  /** Wherever a printed list of trees stands in a file, reading objects there gives
      back the trees and stops right behind them. */
  lemma {:induction false} ReadPrinted(b: seq<byte>, p: nat, ts: seq<Tree>, prefix: string)
    requires At(b, p, Be(|ts|) + PrintTrees(ts)) && AllSound(ts)
    ensures ObjectsAt(b, p, prefix)
            == Ok((ObjectsOf(ts, p + 4, prefix, 0), p + |Be(|ts|) + PrintTrees(ts)|))
    decreases ts, 2
  {
    hide At, Be, GetL, PrintTrees, ObjectsFrom, ObjectsOf;
    AtSplit(b, p, Be(|ts|), PrintTrees(ts));
    GetBe(b, p, |ts|);
    ReadsTrees(b, p + 4, ts, prefix, 0, |ts|);
  }

  /** Parsing a printed datafile gives back its trees and reads all of it. */
  lemma ParsePrint(ts: seq<Tree>)
    requires AllSound(ts)
    ensures var body := PrintDatafile(ts);
            Parsed(body) == Ok(ObjectsOf(ts, 8, "", 0))
            && ObjectsAt(body, 4, "") == Ok((ObjectsOf(ts, 8, "", 0), |body|))
  {
    hide Be, GetL, PrintTrees, ObjectsAt, ObjectsOf;
    var body := PrintDatafile(ts);
    assert body == Be(DAT_MAGIC) + (Be(|ts|) + PrintTrees(ts));
    assert At(body, 0, body);
    AtSplit(body, 0, Be(DAT_MAGIC), Be(|ts|) + PrintTrees(ts));
    GetBe(body, 0, DAT_MAGIC);
    ReadPrinted(body, 4, ts, "");
  }
}
