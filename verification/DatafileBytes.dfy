/** The datafile format in numbers: where in the bytes every part of a parsed object
    comes from, and how objects are named. */
module DatafileBytes {
  import opened Wrappers
  import opened Bits
  import opened Words
  import opened Layout
  import opened Text
  import opened Datafile
  import opened DatafileFormat

  // ----- words

  /** The four bytes at p, highest first, as a signed number. */
  function SignedAt(b: seq<byte>, p: nat): int
    requires p + 4 <= |b|
  {
    var n := b[p] as int * 16777216 + b[p + 1] as int * 65536 + b[p + 2] as int * 256 + b[p + 3] as int;
    if n < 2147483648 then n else n - 4294967296
  }

  lemma GetLInNumbers(b: seq<byte>, p: nat)
    requires p + 4 <= |b|
    ensures GetL(b, p) == Ok(SignedAt(b, p))
  {
  }

  /** The four characters at p. */
  function CharsAt(b: seq<byte>, p: nat): string
    requires p + 4 <= |b|
  {
    Latin1(b[p..p + 4])
  }

  /** A type word is its bytes as characters, highest first. */
  lemma FourccCharacters(a: byte, b: byte, c: byte, d: byte)
    ensures Fourcc(BeWord([a, b, c, d])) == [a as char, b as char, c as char, d as char]
  {
    hide BeWord, BeBytes;
    BytesAreCanonical([a, b, c, d]);
  }

  lemma FourccAt(b: seq<byte>, p: nat)
    requires p + 4 <= |b|
    ensures GetL(b, p).Ok? && Fourcc(Unsigned(GetL(b, p).value)) == CharsAt(b, p)
  {
    hide BeWord, BeBytes, Signed, Unsigned;
    BytesAreCanonical(b[p..p + 4]);
    UnsignedSigned(BeWord(b[p..p + 4]));
  }

  lemma PropWord(w: word)
    ensures w == DAT_PROPERTY <==> Fourcc(w) == "prop"
  {
    hide Fourcc, BeWord;
    FourccCharacters(112, 114, 111, 112);
    assert BeWord([112, 114, 111, 112]) == DAT_PROPERTY by { PropNumber(); }
    if Fourcc(w) == "prop" { FourccInjective(w, DAT_PROPERTY); }
  }

  lemma PropNumber()
    ensures BeWord([112, 114, 111, 112]) == DAT_PROPERTY && BeWord([65, 76, 76, 46]) == DAT_MAGIC
  {
  }

  lemma MagicWord(w: word)
    ensures w == DAT_MAGIC <==> Fourcc(w) == "ALL."
  {
    hide Fourcc, BeWord;
    FourccCharacters(65, 76, 76, 46);
    assert BeWord([65, 76, 76, 46]) == DAT_MAGIC by { PropNumber(); }
    if Fourcc(w) == "ALL." { FourccInjective(w, DAT_MAGIC); }
  }

  // ----- properties

  /** Behind the characters "prop" come four characters of type, a length and that
      many characters, cut at the end of the file; anything else ends the list. */
  lemma PropertyRead(b: seq<byte>, p: nat, props: map<string, string>)
    requires p + 12 <= |b|
    ensures var n := SignedAt(b, p + 8);
            PropsAt(b, p, props)
            == if CharsAt(b, p) != "prop" then Ok((Unsigned(SignedAt(b, p)), props, p + 4))
               else if n < 0 then Err(NegativeSize)
               else PropsAt(b, p + 12 + n, props[CharsAt(b, p + 4) := Latin1(Slice(b, p + 12, p + 12 + n))])
  {
    hide Fourcc, GetL, Unsigned, Slice;
    GetLInNumbers(b, p);
    GetLInNumbers(b, p + 4);
    GetLInNumbers(b, p + 8);
    FourccAt(b, p);
    FourccAt(b, p + 4);
    PropWord(Unsigned(SignedAt(b, p)));
    PropsForm(b, p, props);
  }

  lemma PropsForm(b: seq<byte>, p: nat, props: map<string, string>)
    requires GetL(b, p).Ok? && GetL(b, p + 4).Ok? && GetL(b, p + 8).Ok?
    ensures var t, n := Unsigned(GetL(b, p).value), GetL(b, p + 8).value;
            PropsAt(b, p, props)
            == if t != DAT_PROPERTY then Ok((t, props, p + 4))
               else if n < 0 then Err(NegativeSize)
               else PropsAt(b, p + 12 + n,
                            props[Fourcc(Unsigned(GetL(b, p + 4).value)) := Latin1(Slice(b, p + 12, p + 12 + n))])
  {
    hide Fourcc, GetL, Unsigned, Slice;
  }

  /** The property list of an object ends in its type. */
  lemma {:induction false} TypeRead(b: seq<byte>, p: nat, props: map<string, string>)
    requires PropsAt(b, p, props).Ok?
    ensures var (t, _, q) := PropsAt(b, p, props).value;
            4 <= q <= |b| && Fourcc(t) == CharsAt(b, q - 4)
    decreases Left(b, p)
  {
    hide Fourcc, GetL, Unsigned, Slice, Latin1;
    var t := Unsigned(GetL(b, p).value);
    if t != DAT_PROPERTY {
      FourccAt(b, p);
    } else {
      var n := GetL(b, p + 8).value;
      PropsForm(b, p, props);
      TypeRead(b, p + 12 + n, props[Fourcc(Unsigned(GetL(b, p + 4).value)) := Latin1(Slice(b, p + 12, p + 12 + n))]);
    }
  }

  // ----- objects

  /** What is known of object number `idx` of a list: its header stands in the twelve
      bytes before its offset, its name is its NAME property, its path is that name,
      or else its number, behind the path of the directory, and it is a directory
      exactly if its type is FILE. */
  ghost predicate Proper(b: seq<byte>, o: Obj, prefix: string, idx: nat)
    decreases o, 1
  {
    12 <= o.offset <= |b| && o.typ == CharsAt(b, o.offset - 12)
    && o.filesize == SignedAt(b, o.offset - 8) && o.size == SignedAt(b, o.offset - 4)
    && o.packedChunk == (o.filesize != o.size)
    && o.index == idx
    && o.name == (if "NAME" in o.props then Some(o.props["NAME"]) else None)
    && o.path == prefix + (if o.name.Some? && o.name.value != "" then o.name.value else "#" + Decimal(idx))
    && (o.content.Children? <==> o.typ == "FILE")
    && (o.content.Children? ==> Listed(b, o.offset, o.content.objs, o.path + "/"))
  }

  /** A list of objects that begins with its length at p. */
  ghost predicate Listed(b: seq<byte>, p: nat, os: seq<Obj>, prefix: string)
    decreases os, 0
  {
    p + 4 <= |b| && |os| == (if SignedAt(b, p) < 0 then 0 else SignedAt(b, p))
    && forall i :: 0 <= i < |os| ==> Proper(b, os[i], prefix, i)
  }

  lemma {:induction false} ObjectIsProper(b: seq<byte>, p: nat, prefix: string, idx: nat)
    requires ObjectAt(b, p, prefix, idx).Ok?
    ensures Proper(b, ObjectAt(b, p, prefix, idx).value.0, prefix, idx)
    decreases Left(b, p), 0
  {
    hide PropsAt, GetL, Fourcc, ObjectsAt, Slice, SignedAt, CharsAt, Listed;
    var q := PropsAt(b, p, map[]).value.2;
    TypeRead(b, p, map[]);
    GetLInNumbers(b, q);
    GetLInNumbers(b, q + 4);
    var o := ObjectAt(b, p, prefix, idx).value.0;
    assert o.offset == q + 8;
    if o.content.Children? { ObjectsAreListed(b, o.offset, o.path + "/"); }
  }

  lemma {:induction false} ObjectsAreListed(b: seq<byte>, p: nat, prefix: string)
    requires ObjectsAt(b, p, prefix).Ok?
    ensures Listed(b, p, ObjectsAt(b, p, prefix).value.0, prefix)
    decreases Left(b, p), 0
  {
    hide GetL, SignedAt, Proper;
    GetLInNumbers(b, p);
    ObjectsAreProper(b, p + 4, prefix, 0, GetL(b, p).value);
  }

  lemma {:induction false} ObjectsAreProper(b: seq<byte>, p: nat, prefix: string, idx: nat, count: int)
    requires ObjectsFrom(b, p, prefix, idx, count).Ok?
    ensures var os := ObjectsFrom(b, p, prefix, idx, count).value.0;
            |os| == (if idx < count then count - idx else 0)
            && forall i :: 0 <= i < |os| ==> Proper(b, os[i], prefix, idx + i)
    decreases Left(b, p), 1
  {
    hide Proper, ObjectAt;
    if idx < count {
      var (o, q) := ObjectAt(b, p, prefix, idx).value;
      var os := ObjectsFrom(b, q, prefix, idx + 1, count).value.0;
      ObjectIsProper(b, p, prefix, idx);
      ObjectsAreProper(b, q, prefix, idx + 1, count);
      var all := [o] + os;
      forall i | 0 <= i < |all|
        ensures Proper(b, all[i], prefix, idx + i)
      {
        if i > 0 { assert all[i] == os[i - 1]; }
      }
    }
  }

  /** Every successful parse: the file begins with "ALL." and a list of objects that
      come from the bytes as stated. */
  lemma ParseInNumbers(body: seq<byte>)
    requires Parsed(body).Ok?
    ensures |body| >= 8 && CharsAt(body, 0) == "ALL." && Listed(body, 4, Parsed(body).value, "")
  {
    hide GetL, Fourcc, CharsAt, Listed, ObjectsAt;
    FourccAt(body, 0);
    MagicWord(Unsigned(GetL(body, 0).value));
    ObjectsAreListed(body, 4, "");
    assert Listed(body, 4, ObjectsAt(body, 4, "").value.0, "");
    assert |body| >= 8 by { ListedFits(body, 4, Parsed(body).value, ""); }
  }

  lemma ListedFits(b: seq<byte>, p: nat, os: seq<Obj>, prefix: string)
    requires Listed(b, p, os, prefix)
    ensures p + 4 <= |b|
  {
  }

  /** Every other magic is refused. */
  lemma OtherMagic(body: seq<byte>)
    ensures Parsed(body) == Err(BadMagic) <==> |body| >= 4 && CharsAt(body, 0) != "ALL."
  {
    hide Fourcc, CharsAt, ObjectsAt;
    if |body| >= 4 {
      FourccAt(body, 0);
      MagicWord(Unsigned(GetL(body, 0).value));
      NoMagicWithin(body, 4, "");
    }
  }

  /** The magic is checked at the start only. */
  lemma {:induction false} NoMagicWithin(b: seq<byte>, p: nat, prefix: string)
    ensures ObjectsAt(b, p, prefix) != Err(BadMagic)
    decreases Left(b, p), 0
  {
    if GetL(b, p).Ok? { NoMagicFrom(b, p + 4, prefix, 0, GetL(b, p).value); }
  }

  lemma {:induction false} NoMagicFrom(b: seq<byte>, p: nat, prefix: string, idx: nat, count: int)
    ensures ObjectsFrom(b, p, prefix, idx, count) != Err(BadMagic)
    decreases Left(b, p), 1
  {
    hide ObjectAt;
    if idx < count {
      NoMagicInObject(b, p, prefix, idx);
      if ObjectAt(b, p, prefix, idx).Ok? {
        var q := ObjectAt(b, p, prefix, idx).value.1;
        ObjectMoves(b, p, prefix, idx);
        NoMagicFrom(b, q, prefix, idx + 1, count);
      }
    }
  }

  lemma ObjectMoves(b: seq<byte>, p: nat, prefix: string, idx: nat)
    requires ObjectAt(b, p, prefix, idx).Ok?
    ensures Left(b, ObjectAt(b, p, prefix, idx).value.1) < Left(b, p)
  {
    hide ObjectAt;
  }

  lemma {:induction false} NoMagicInObject(b: seq<byte>, p: nat, prefix: string, idx: nat)
    ensures ObjectAt(b, p, prefix, idx) != Err(BadMagic)
    decreases Left(b, p), 0
  {
    hide Fourcc, Label, Slice, ObjectsAt;
    NoMagicInProps(b, p, map[]);
    if PropsAt(b, p, map[]).Ok? {
      var (t, props, q) := PropsAt(b, p, map[]).value;
      NoMagicWithin(b, q + 8, prefix + Label(props, idx) + "/");
    }
  }

  lemma {:induction false} NoMagicInProps(b: seq<byte>, p: nat, props: map<string, string>)
    ensures PropsAt(b, p, props) != Err(BadMagic)
    decreases Left(b, p)
  {
    hide Fourcc, Slice, Latin1;
    if GetL(b, p).Ok? && GetL(b, p + 4).Ok? && GetL(b, p + 8).Ok? {
      var n := GetL(b, p + 8).value;
      if n >= 0 {
        NoMagicInProps(b, p + 12 + n,
                       props[Fourcc(Unsigned(GetL(b, p + 4).value)) := Latin1(Slice(b, p + 12, p + 12 + n))]);
      }
    }
  }

  // ----- flattened lists

  /** The same for every object of the flattened list, whatever its depth. */
  lemma HeadersInPlace(body: seq<byte>, i: nat)
    requires Parsed(body).Ok? && i < |Preorder(Parsed(body).value)|
    ensures var o := Preorder(Parsed(body).value)[i];
            12 <= o.offset && o.typ == Latin1(Slice(body, o.offset - 12, o.offset - 8))
            && o.offset <= |body| && o.filesize == SignedAt(body, o.offset - 8) && o.size == SignedAt(body, o.offset - 4)
  {
    hide Listed, SignedAt;
    ParseInNumbers(body);
    var os := Parsed(body).value;
    ListedFrom(body, 4, os, "");
    var prefix, idx := PreorderProper(body, os, "", 0, i);
    ProperHeader(body, Preorder(os)[i], prefix, idx);
  }

  lemma ProperHeader(b: seq<byte>, o: Obj, prefix: string, idx: nat)
    requires Proper(b, o, prefix, idx)
    ensures 12 <= o.offset <= |b| && o.typ == Latin1(Slice(b, o.offset - 12, o.offset - 8))
    ensures o.filesize == SignedAt(b, o.offset - 8) && o.size == SignedAt(b, o.offset - 4)
  {
    hide SignedAt;
  }

  ghost predicate ProperFrom(b: seq<byte>, os: seq<Obj>, prefix: string, idx: nat) {
    forall i :: 0 <= i < |os| ==> Proper(b, os[i], prefix, idx + i)
  }

  lemma ListedFrom(b: seq<byte>, p: nat, os: seq<Obj>, prefix: string)
    requires Listed(b, p, os, prefix)
    ensures ProperFrom(b, os, prefix, 0)
  {
    forall i | 0 <= i < |os|
      ensures Proper(b, os[i], prefix, 0 + i)
    {
    }
  }

  lemma {:induction false} PreorderProper(b: seq<byte>, os: seq<Obj>, prefix: string, idx: nat, i: nat)
      returns (pre: string, number: nat)
    requires ProperFrom(b, os, prefix, idx) && i < |Preorder(os)|
    ensures Proper(b, Preorder(os)[i], pre, number)
    decreases os, 1
  {
    hide Proper, PreorderOf;
    var front, rest := PreorderOf(os[0]), os[1..];
    if i < |front| {
      pre, number := PreorderOfProper(b, os[0], prefix, idx, i);
    } else {
      forall k | 0 <= k < |rest|
        ensures Proper(b, rest[k], prefix, idx + 1 + k)
      {
        assert Proper(b, os[k + 1], prefix, idx + (k + 1));
      }
      pre, number := PreorderProper(b, rest, prefix, idx + 1, i - |front|);
    }
  }

  lemma {:induction false} PreorderOfProper(b: seq<byte>, o: Obj, prefix: string, idx: nat, i: nat)
      returns (pre: string, number: nat)
    requires Proper(b, o, prefix, idx) && i < |PreorderOf(o)|
    ensures Proper(b, PreorderOf(o)[i], pre, number)
    decreases o, 0
  {
    hide Preorder, Listed, SignedAt, CharsAt;
    if i > 0 {
      ListedFrom(b, o.offset, o.content.objs, o.path + "/");
      pre, number := PreorderProper(b, o.content.objs, o.path + "/", 0, i - 1);
    } else {
      pre, number := prefix, idx;
    }
  }

  // ----- printed trees

  /** A property whose type is spelt NAME names its object, unless another comes
      behind it, and ends the path of the object. */
  lemma NamedObject(t: Tree, i: nat, pos: nat, prefix: string, idx: nat)
    requires i < |t.props| && t.props[i].typ == BeWord([78, 65, 77, 69])
    requires forall k :: i < k < |t.props| ==> t.props[k].typ != t.props[i].typ
    ensures var o, text := ObjectOf(t, pos, prefix, idx), Latin1(t.props[i].data);
            o.name == Some(text) && (text != "" ==> o.path == prefix + text)
  {
    hide Fourcc, BeWord, ObjectsOf, PrintBody, PrintProps;
    FourccCharacters(78, 65, 77, 69);
    DictionaryHolds(t.props, i, map[]);
  }

  /** Printed files begin with "ALL.", printed properties with "prop". */
  lemma PrintedMarks(ts: seq<Tree>, p: Prop)
    ensures CharsAt(PrintDatafile(ts), 0) == "ALL." && CharsAt(PrintProp(p), 0) == "prop"
  {
    hide Fourcc, BeBytes, PrintTrees;
    PropWord(DAT_PROPERTY);
    MagicWord(DAT_MAGIC);
    CharsOfWord(DAT_MAGIC, PrintDatafile(ts));
    CharsOfWord(DAT_PROPERTY, PrintProp(p));
  }

  lemma CharsOfWord(w: word, b: seq<byte>)
    requires |b| >= 4 && b[..4] == BeBytes(w)
    ensures CharsAt(b, 0) == Fourcc(w)
  {
    assert b[0..4] == b[..4];
  }

  /** Which trees can be printed: no type is spelt prop, FILE is the type of the
      directories, and lengths and counts fit a signed word. */
  lemma SoundInCharacters(t: Tree)
    ensures Sound(t) <==>
              Fourcc(t.typ) != "prop" && (Fourcc(t.typ) == "FILE" <==> t.body.File?)
              && (forall p :: p in t.props ==> |p.data| < 2147483648) && |PrintBody(t.body)| < 2147483648
              && (t.body.File? ==> |t.body.children| < 2147483648
                                   && forall i :: 0 <= i < |t.body.children| ==> Sound(t.body.children[i]))
  {
    hide Fourcc, PrintBody;
    PropWord(t.typ);
  }
}
