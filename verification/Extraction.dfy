/** The path every command of tools_recon/assets_datafile.py takes: open the
    packfile, parse the object tree, flatten it. */
module Extraction {
  import opened Wrappers
  import opened Bits
  import Packfile
  import PackfileFormat
  import Datafile
  import DatafileFormat

  datatype Error = InPack(pack: Packfile.Error) | InTree(tree: Datafile.Error)

  function Objects(raw: seq<byte>, password: Option<seq<byte>>): Result<seq<Datafile.Obj>, Error> {
    match Packfile.Open(raw, password)
    case Err(e) => Err(InPack(e))
    case Ok(file) =>
      match Datafile.Parsed(file.body)
      case Err(e) => Err(InTree(e))
      case Ok(objs) => Ok(Datafile.Preorder(objs))
  }

  method Load(raw: seq<byte>, password: Option<seq<byte>>) returns (r: Result<seq<Datafile.Obj>, Error>)
    ensures r == Objects(raw, password)
  {
    hide Packfile.Open, Datafile.Parsed, Datafile.Preorder;
    var file := Packfile.OpenPackfile(raw, password);
    if file.Err? {
      return Err(InPack(file.error));
    }
    var objs := Datafile.ParseDatafile(file.value.body);
    if objs.Err? {
      return Err(InTree(objs.error));
    }
    var all := Datafile.Flatten(objs.value, []);
    assert [] + Datafile.Preorder(objs.value) == Datafile.Preorder(objs.value);
    return Ok(all);
  }

  /** A tree printed, packed in any way under any password and loaded with that
      password comes back object by object. */
  lemma LoadPacked(pw: seq<byte>, newFormat: bool, c: PackfileFormat.Content, ts: seq<DatafileFormat.Tree>)
    requires PackfileFormat.Writable(c) && DatafileFormat.AllSound(ts)
    requires PackfileFormat.Plain(c) == DatafileFormat.PrintDatafile(ts)
    ensures Objects(PackfileFormat.Pack(Some(pw), newFormat, c), Some(pw))
            == Ok(Datafile.Preorder(DatafileFormat.ObjectsOf(ts, 8, "", 0)))
  {
    hide Packfile.Open, Datafile.Parsed, Datafile.Preorder, DatafileFormat.ObjectsOf, PackfileFormat.Pack;
    PackfileFormat.OpenPack(pw, newFormat, c);
    DatafileFormat.ParsePrint(ts);
  }
}
