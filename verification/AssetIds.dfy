/** build_assets of carrier/gen/gen_assets.py: one asset per datafile object, with
    an identifier no other asset has. */
module AssetIds {
  import opened Wrappers
  import opened Text
  import opened AssetNames

  /** The fields of a manifest record that are read. */
  datatype Record = Record(kind: string, file: string, index: nat, objectName: Option<string>, fourcc: string)

  datatype Asset = Asset(idName: string, family: string, index: nat, objectName: string, fourcc: string)

  /** KeyError for a file without a stem; AssertionError for a stem outside the known
      forms or a character object without a name. */
  datatype Error = UnknownFile | UnknownStem | NoName

  type Stems = map<string, string>

  // ----- names

  predicate StartsWith(s: string, prefix: string) {
    prefix <= s
  }

  const CHAR_PREFIX := "char."

  predicate IsCharStem(stem: string) {
    StartsWith(stem, CHAR_PREFIX)
  }

  function FamilyOf(stem: string): Result<string, Error> {
    if stem == "data" then Ok("data")
    else if stem == "sfx15" then Ok("sfx")
    else if stem == "loading" then Ok("loading")
    else if IsCharStem(stem) then Ok("char:" + stem[|CHAR_PREFIX|..])
    else Err(UnknownStem)
  }

  /** split("_")[0] */
  function FirstPart(s: string): string {
    if s == [] || s[0] == '_' then [] else [s[0]] + FirstPart(s[1..])
  }

  function IdPrefixOf(stem: string): Result<string, Error> {
    if stem == "data" then Ok("DATA")
    else if stem == "sfx15" then Ok("SFX")
    else if stem == "loading" then Ok("LOADING")
    else if IsCharStem(stem) then Ok("CHAR_" + Upper(FirstPart(stem[|CHAR_PREFIX|..])))
    else Err(UnknownStem)
  }

  /** CHAR_SLOT.get */
  function CharSlot(index: nat): Option<string> {
    if index == 0 then Some("palette")
    else if index < 10 then Some("frame0" + Decimal(index))
    else if index < 16 then Some("frame" + Decimal(index))
    else if index == 16 then Some("snd_jump_lo")
    else if index == 17 then Some("snd_jump_med")
    else if index == 18 then Some("snd_jump_hi")
    else if index == 19 then Some("snd_yo")
    else if index == 20 then Some("snd_wazup")
    else if index == 21 then Some("snd_falling")
    else if index == 22 then Some("snd_edge")
    else if index == 23 then Some("music_bg")
    else None
  }

  function DisplayName(stem: string, index: nat, objectName: Option<string>): Result<string, Error> {
    if IsCharStem(stem) then
      if CharSlot(index).Some? then Ok(CharSlot(index).value)
      else if objectName.Some? then Ok(objectName.value)
      else Err(NoName)
    else if objectName.Some? && objectName.value != "" then Ok(objectName.value)
    else Ok("OBJ_" + Decimal(index))
  }

  function ObjectPart(stem: string, index: nat, objectName: Option<string>): Result<string, Error> {
    var name :- DisplayName(stem, index, objectName);
    Ok(SanitizeToken(if stem == "sfx15" && StartsWith(name, "S_") then name[2..] else name))
  }

  // ----- one asset, before disambiguation

  /** The asset of a record, with the identifier it asks for. */
  function Wanted(rec: Record, stems: Stems): Result<Asset, Error> {
    if rec.file !in stems then Err(UnknownFile)
    else
      var stem := stems[rec.file];
      var family :- FamilyOf(stem);
      var prefix :- IdPrefixOf(stem);
      var obj :- ObjectPart(stem, rec.index, rec.objectName);
      var name :- DisplayName(stem, rec.index, rec.objectName);
      Ok(Asset("ASSET_" + prefix + "_" + obj, family, rec.index, name, rec.fourcc))
  }

  function Selected(manifest: seq<Record>): seq<Record> {
    if manifest == [] then []
    else
      var i := |manifest| - 1;
      Selected(manifest[..i]) + (if manifest[i].kind == "datafile_object" then [manifest[i]] else [])
  }

  /** All wanted assets in order, or the first error. */
  function AllWanted(recs: seq<Record>, stems: Stems): (r: Result<seq<Asset>, Error>)
    ensures r.Ok? ==> |r.value| == |recs|
  {
    if recs == [] then Ok([])
    else
      var i := |recs| - 1;
      var front :- AllWanted(recs[..i], stems);
      var last :- Wanted(recs[i], stems);
      Ok(front + [last])
  }

  // ----- disambiguation

  function Numbered(id: string, n: nat): string {
    id + "_" + Decimal(n)
  }

  /** The identifier given when `want` is asked for and `seen` are taken. */
  ghost predicate Given(id: string, want: string, seen: set<string>) {
    if want !in seen then id == want
    else exists n :: 2 <= n && id == Numbered(want, n) && id !in seen && TakenTo(want, n, seen)
  }

  ghost predicate TakenTo(want: string, n: nat, seen: set<string>) {
    forall k :: 2 <= k < n ==> Numbered(want, k) in seen
  }

  function Ids(assets: seq<Asset>): set<string> {
    set a | a in assets :: a.idName
  }

  /** The assets built from the wanted ones: everything kept but the identifier,
      which is disambiguated against all before it. */
  ghost predicate Built(assets: seq<Asset>, wanted: seq<Asset>) {
    |assets| == |wanted| &&
    forall i :: 0 <= i < |assets| ==>
      assets[i] == wanted[i].(idName := assets[i].idName)
      && Given(assets[i].idName, wanted[i].idName, Ids(assets[..i]))
  }

  lemma NumberedInjective(id: string, m: nat, n: nat)
    requires Numbered(id, m) == Numbered(id, n)
    ensures m == n
  {
    var p := id + "_";
    assert (p + Decimal(m))[|p|..] == Decimal(m) && (p + Decimal(n))[|p|..] == Decimal(n);
    DecimalInjective(m, n);
  }

  /** The numbered forms 2 .. n-1 of an identifier. */
  function Candidates(id: string, n: nat): set<string> {
    set k | 2 <= k < n :: Numbered(id, k)
  }

  lemma {:induction false} CandidatesCount(id: string, n: nat)
    requires n >= 2
    ensures |Candidates(id, n)| == n - 2
  {
    if n > 2 {
      CandidatesCount(id, n - 1);
      forall k | 2 <= k < n - 1
        ensures Numbered(id, k) != Numbered(id, n - 1)
      {
        if Numbered(id, k) == Numbered(id, n - 1) { NumberedInjective(id, k, n - 1); }
      }
      hide Numbered;
      assert Candidates(id, n) == Candidates(id, n - 1) + {Numbered(id, n - 1)};
    } else {
      assert Candidates(id, n) == {};
    }
  }

  lemma {:induction false} SubsetSize<T>(a: set<T>, b: set<T>)
    requires a <= b
    ensures |a| <= |b|
  {
    assert b == a + (b - a);
  }

  /** Pigeonhole: as long as every number tried is taken, there are at least as many
      taken identifiers as tries. */
  lemma TriesBounded(want: string, n: nat, seen: set<string>)
    requires n >= 2 && TakenTo(want, n, seen)
    ensures n - 2 <= |seen|
  {
    CandidatesCount(want, n);
    assert Candidates(want, n) <= seen;
    SubsetSize(Candidates(want, n), seen);
  }

  /** The search for a free number; `tries` counts the tests of its loop. */
  method Disambiguate(want: string, seen: set<string>) returns (id: string, ghost tries: nat)
    ensures Given(id, want, seen) && id !in seen
    ensures tries <= |seen| + 1
  {
    tries := 0;
    id := want;
    if id in seen {
      var n := 2;
      TriesBounded(want, n, seen);
      while Numbered(want, n) in seen
        invariant n >= 2 && TakenTo(want, n, seen) && tries == n - 2 <= |seen|
        decreases |seen| + 2 - n
      {
        hide Numbered, Decimal;
        tries := tries + 1;
        n := n + 1;
        TriesBounded(want, n, seen);
      }
      tries := tries + 1;
      id := Numbered(want, n);
    }
  }

  method BuildAssets(manifest: seq<Record>, stems: Stems) returns (r: Result<seq<Asset>, Error>)
    ensures match AllWanted(Selected(manifest), stems)
            case Ok(wanted) => r.Ok? && Built(r.value, wanted)
            case Err(e) => r == Err(e)
  {
    hide Wanted, Given, Built, Selected, AllWanted, Ids;
    BuildStart(stems);
    var assets: seq<Asset> := [];
    var seen: set<string> := {};
    ghost var wanted: seq<Asset> := [];
    for i := 0 to |manifest|
      invariant AllWanted(Selected(manifest[..i]), stems) == Ok(wanted)
      invariant Built(assets, wanted) && seen == Ids(assets)
    {
      var rec := manifest[i];
      SelectedStep(manifest, i);
      if rec.kind == "datafile_object" {
        AllWantedStep(Selected(manifest[..i]), rec, stems);
        var a := Wanted(rec, stems);
        if a.Err? {
          AllWantedFails(manifest, i + 1, stems);
          return Err(a.error);
        }
        var id, _ := Disambiguate(a.value.idName, seen);
        BuiltStep(assets, wanted, a.value, id);
        seen := seen + {id};
        assets := assets + [a.value.(idName := id)];
        wanted := wanted + [a.value];
      }
    }
    assert manifest[..|manifest|] == manifest;
    return Ok(assets);
  }

  lemma BuildStart(stems: Stems)
    ensures Built([], []) && Ids([]) == {} && Selected([]) == [] && AllWanted([], stems) == Ok([])
  {
  }

  lemma SelectedStep(manifest: seq<Record>, i: nat)
    requires i < |manifest|
    ensures Selected(manifest[..i + 1])
            == if manifest[i].kind == "datafile_object" then Selected(manifest[..i]) + [manifest[i]]
               else Selected(manifest[..i])
  {
    assert manifest[..i + 1][..i] == manifest[..i];
  }

  lemma AllWantedStep(recs: seq<Record>, rec: Record, stems: Stems)
    ensures AllWanted(recs + [rec], stems)
            == match AllWanted(recs, stems)
               case Err(e) => Err(e)
               case Ok(front) => (match Wanted(rec, stems)
                 case Err(e) => Err(e)
                 case Ok(last) => Ok(front + [last]))
  {
    assert (recs + [rec])[..|recs|] == recs;
  }

  lemma {:induction false} AllWantedFails(manifest: seq<Record>, n: nat, stems: Stems)
    requires n <= |manifest| && AllWanted(Selected(manifest[..n]), stems).Err?
    ensures AllWanted(Selected(manifest), stems) == AllWanted(Selected(manifest[..n]), stems)
    decreases |manifest| - n
  {
    hide Wanted;
    if n == |manifest| {
      assert manifest[..n] == manifest;
    } else {
      SelectedStep(manifest, n);
      AllWantedStep(Selected(manifest[..n]), manifest[n], stems);
      AllWantedFails(manifest, n + 1, stems);
    }
  }

  lemma BuiltStep(assets: seq<Asset>, wanted: seq<Asset>, want: Asset, id: string)
    requires Built(assets, wanted) && Given(id, want.idName, Ids(assets))
    ensures var more := assets + [want.(idName := id)];
            Built(more, wanted + [want]) && Ids(more) == Ids(assets) + {id}
  {
    hide Given;
    var more := assets + [want.(idName := id)];
    forall i | 0 <= i < |more|
      ensures Given(more[i].idName, (wanted + [want])[i].idName, Ids(more[..i]))
    {
      if i < |assets| { assert more[..i] == assets[..i]; } else { assert more[..i] == assets; }
    }
    assert Ids(more) == Ids(assets) + {id} by {
      assert forall a :: a in more <==> a in assets || a == want.(idName := id);
      assert want.(idName := id) in more;
    }
  }

  // ----- what the identifiers guarantee

  /** All identifiers are different, whatever the manifest. */
  lemma BuiltIdsDistinct(assets: seq<Asset>, wanted: seq<Asset>)
    requires Built(assets, wanted)
    ensures forall i, j :: 0 <= i < j < |assets| ==> assets[i].idName != assets[j].idName
  {
    forall i, j | 0 <= i < j < |assets|
      ensures assets[i].idName != assets[j].idName
    {
      var before := assets[..j];
      assert Given(assets[j].idName, wanted[j].idName, Ids(before));
      assert assets[j].idName !in Ids(before);
      assert before[i] == assets[i] && before[i] in before;
    }
  }

  /** The identifier given is determined: no two runs number differently. */
  lemma GivenUnique(a: string, b: string, want: string, seen: set<string>)
    requires Given(a, want, seen) && Given(b, want, seen)
    ensures a == b
  {
    if want in seen {
      var m :| 2 <= m && a == Numbered(want, m) && a !in seen && TakenTo(want, m, seen);
      var n :| 2 <= n && b == Numbered(want, n) && b !in seen && TakenTo(want, n, seen);
      hide Numbered;
      assert m >= n && n >= m;
    }
  }

  // ----- identifiers are C identifiers

  predicate WordString(s: string) {
    forall i :: 0 <= i < |s| ==> IsWord(s[i])
  }

  /** ASSET_ followed by at least one word character. */
  predicate IsAssetId(s: string) {
    |s| > 6 && s[..6] == "ASSET_" && WordString(s[6..])
  }

  lemma DecimalIsWord(n: nat)
    ensures WordString(Decimal(n))
  {
    var d := Decimal(n);
    forall i | 0 <= i < |d|
      ensures IsWord(d[i])
    {
      assert d[i] in d;
    }
  }

  lemma WordAppend(s: string, t: string)
    ensures WordString(s + t) <==> WordString(s) && WordString(t)
  {
    var u := s + t;
    if WordString(u) {
      assert forall i :: 0 <= i < |s| ==> s[i] == u[i];
      assert forall i :: 0 <= i < |t| ==> t[i] == u[|s| + i];
    }
  }

  lemma NumberedIsAssetId(id: string, n: nat)
    requires IsAssetId(id)
    ensures IsAssetId(Numbered(id, n))
  {
    DecimalIsWord(n);
    WordAppend(id[6..], "_");
    WordAppend(id[6..] + "_", Decimal(n));
    assert Numbered(id, n)[6..] == id[6..] + "_" + Decimal(n);
    assert Numbered(id, n)[..6] == id[..6];
  }

  /** If the wanted identifiers are well formed, so are the given ones. */
  lemma GivenIsAssetId(id: string, want: string, seen: set<string>)
    requires Given(id, want, seen) && IsAssetId(want)
    ensures IsAssetId(id)
  {
    if want in seen {
      var n :| 2 <= n && id == Numbered(want, n);
      NumberedIsAssetId(want, n);
    }
  }

  /** A stem gives well-formed identifiers if its character name starts like a word. */
  predicate PlainStem(stem: string) {
    IsCharStem(stem) ==> WordString(FirstPart(stem[|CHAR_PREFIX|..]))
  }

  lemma WantedIsAssetId(rec: Record, stems: Stems)
    requires Wanted(rec, stems).Ok? && PlainStem(stems[rec.file])
    ensures IsAssetId(Wanted(rec, stems).value.idName)
  {
    hide WordString, IsAssetId, IdPrefixOf, ObjectPart, DisplayName, FamilyOf, PlainStem;
    var stem := stems[rec.file];
    var prefix := IdPrefixOf(stem).value;
    var obj := ObjectPart(stem, rec.index, rec.objectName).value;
    PrefixIsWord(stem);
    ObjectPartIsWord(stem, rec.index, rec.objectName);
    WordAppend(prefix, "_");
    WordAppend(prefix + "_", obj);
    UnderscoreIsWord();
    JoinedIsAssetId(prefix, obj);
  }

  lemma UnderscoreIsWord()
    ensures WordString("_")
  {
  }

  lemma JoinedIsAssetId(prefix: string, obj: string)
    requires WordString(prefix + "_" + obj)
    ensures IsAssetId("ASSET_" + prefix + "_" + obj)
  {
    hide WordString;
    var id := "ASSET_" + prefix + "_" + obj;
    assert id[6..] == prefix + "_" + obj && id[..6] == "ASSET_";
  }

  lemma ObjectPartIsWord(stem: string, index: nat, objectName: Option<string>)
    requires ObjectPart(stem, index, objectName).Ok?
    ensures WordString(ObjectPart(stem, index, objectName).value)
  {
    var name := DisplayName(stem, index, objectName).value;
    SanitizeGivesToken(if stem == "sfx15" && StartsWith(name, "S_") then name[2..] else name);
  }

  lemma PrefixIsWord(stem: string)
    requires IdPrefixOf(stem).Ok? && PlainStem(stem)
    ensures WordString(IdPrefixOf(stem).value)
  {
    if IsCharStem(stem) && stem != "data" && stem != "sfx15" && stem != "loading" {
      var part := FirstPart(stem[|CHAR_PREFIX|..]);
      forall i | 0 <= i < |part|
        ensures IsWord(Upper(part)[i])
      {
        UpperOfWord(part[i]);
      }
      WordAppend("CHAR_", Upper(part));
    }
  }
}
