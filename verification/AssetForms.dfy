/** Asset identifiers and names in plain terms: what a token is made of, which names the
    objects of each datafile take, and which number follows a taken identifier. */
module AssetForms {
  import opened Wrappers
  import opened Text
  import opened AssetNames
  import opened AssetIds

  // ----- characters

  /** 0-9, A-Z and a-z. */
  predicate Solid(c: char) {
    48 <= c as int <= 57 || 65 <= c as int <= 90 || 97 <= c as int <= 122
  }

  function Raised(c: char): char
    requires Solid(c)
  {
    if c as int >= 97 then (c as int - 32) as char else c
  }

  lemma CharacterKinds(c: char)
    ensures IsWord(c) <==> Solid(c) || c == '_'
    ensures Solid(c) ==> UpperChar(c) == Raised(c) && Solid(UpperChar(c)) && Raised(UpperChar(c)) == Raised(c)
    ensures !Solid(c) ==> UpperChar(c) == c
    ensures IsTokenChar(c) <==> c == '_' || (Solid(c) && Raised(c) == c)
  {
  }

  // ----- tokens

  /** The letters and digits of a name in upper case; what stands between two of them,
      however much it is, becomes one underscore, and what stands outside is dropped. */
  function Cleaned(s: string): (t: string)
    ensures |t| <= |s| || t == ""
  {
    if s == "" then ""
    else if !Solid(s[0]) then Cleaned(s[1..])
    else
      var rest := Cleaned(s[1..]);
      [Raised(s[0])] + (if rest == "" || Solid(s[1]) then "" else "_") + rest
  }

  /** A final number is split off a letter by an underscore. */
  lemma NumberSplit(front: string, digits: string)
    requires digits != "" && (forall i :: 0 <= i < |digits| ==> 48 <= digits[i] as int <= 57)
    requires front != "" ==> !(48 <= front[|front| - 1] as int <= 57)
    ensures SplitNumber(front + digits)
            == if front == "" || front[|front| - 1] == '_' then front + digits else front + "_" + digits
  {
    var s := front + digits;
    DigitsFromUnique(s, |front|);
    assert s[..|front|] == front && s[|front|..] == digits;
  }

  lemma NoNumber(s: string)
    requires s != "" ==> !(48 <= s[|s| - 1] as int <= 57)
    ensures SplitNumber(s) == s
  {
    DigitsFromUnique(s, |s|);
  }

  lemma CleanedStep(c: char, s: string)
    ensures Cleaned([c] + s) == if !Solid(c) then Cleaned(s)
                                else [Raised(c)] + (if Cleaned(s) == "" || Solid(s[0]) then "" else "_") + Cleaned(s)
  {
    assert ([c] + s)[1..] == s;
  }

  lemma {:induction false} CleanedSkip(s: string, p: char -> bool)
    requires forall c :: p(c) ==> !Solid(c)
    ensures Cleaned(SkipRun(s, p)) == Cleaned(s)
  {
    hide Solid;
    if s != "" && p(s[0]) { CleanedSkip(s[1..], p); }
  }

  lemma {:induction false} CleanedRuns(s: string, p: char -> bool)
    requires forall c :: p(c) ==> !Solid(c)
    ensures Cleaned(ReplaceRuns(s, p)) == Cleaned(s)
    ensures ReplaceRuns(s, p) == "" <==> s == ""
    ensures s != "" ==> (Solid(ReplaceRuns(s, p)[0]) <==> Solid(s[0]))
    decreases |s|
  {
    hide Solid, Raised, Cleaned;
    UnderscoreIsNotSolid();
    if s != "" {
      assert s == [s[0]] + s[1..];
      CleanedStep(s[0], s[1..]);
      if p(s[0]) {
        var rest := SkipRun(s[1..], p);
        CleanedSkip(s[1..], p);
        CleanedRuns(rest, p);
        CleanedStep('_', ReplaceRuns(rest, p));
      } else {
        CleanedRuns(s[1..], p);
        CleanedStep(s[0], ReplaceRuns(s[1..], p));
      }
    }
  }

  lemma UnderscoreIsNotSolid()
    ensures !Solid('_')
  {
  }

  lemma {:induction false} CleanedUpper(s: string)
    ensures Cleaned(Upper(s)) == Cleaned(s)
  {
    hide Solid, Raised, UpperChar;
    if s != "" {
      CleanedUpper(s[1..]);
      assert Upper(s) == [UpperChar(s[0])] + Upper(s[1..]);
      assert s == [s[0]] + s[1..];
      CleanedStep(s[0], s[1..]);
      CleanedStep(UpperChar(s[0]), Upper(s[1..]));
      UpperSolid(s[0]);
      if |s| > 1 { UpperSolid(s[1]); }
    }
  }

  lemma UpperSolid(c: char)
    ensures Solid(UpperChar(c)) <==> Solid(c)
    ensures Solid(c) ==> Raised(UpperChar(c)) == Raised(c)
  {
    CharacterKinds(c);
  }

  lemma {:induction false} CleanedStripLeft(s: string)
    ensures Cleaned(StripLeft(s)) == Cleaned(s)
  {
    hide Solid;
    UnderscoreIsNotSolid();
    if s != "" && s[0] == '_' { CleanedStripLeft(s[1..]); }
  }

  lemma {:induction false} CleanedStripRight(s: string)
    ensures Cleaned(StripRight(s)) == Cleaned(s)
  {
    if s != "" && s[|s| - 1] == '_' {
      var t := s[..|s| - 1];
      CleanedStripRight(t);
      CleanedTail(t);
      assert s == t + "_";
    }
  }

  /** A trailing underscore is dropped. */
  lemma {:induction false} CleanedTail(t: string)
    ensures Cleaned(t + "_") == Cleaned(t)
  {
    hide Solid, Raised, Cleaned;
    UnderscoreIsNotSolid();
    CleanedStep('_', "");
    if t == "" {
      assert t + "_" == ['_'] + "";
    } else {
      CleanedTail(t[1..]);
      assert t == [t[0]] + t[1..] && t + "_" == [t[0]] + (t[1..] + "_");
      CleanedStep(t[0], t[1..]);
      CleanedStep(t[0], t[1..] + "_");
      if t[1..] == "" { NothingCleaned(); }
    }
  }

  lemma NothingCleaned()
    ensures Cleaned("") == ""
  {
  }

  /** A token is its own letters, digits and underscores. */
  lemma {:induction false} CleanedToken(s: string)
    requires TokenChars(s) && Single(s) && (s != "" ==> s[|s| - 1] != '_')
    ensures Cleaned(s) == if s != "" && s[0] == '_' then s[1..] else s
  {
    hide Solid, Raised, Cleaned;
    NothingCleaned();
    if s != "" {
      var rest := s[1..];
      CleanedToken(rest);
      assert s == [s[0]] + rest;
      CleanedStep(s[0], rest);
      CharacterKinds(s[0]);
      UnderscoreIsNotSolid();
      if rest != "" {
        CharacterKinds(rest[0]);
        if rest[0] == '_' { assert rest == "_" + rest[1..]; }
      }
    }
  }

  /** Sanitizing cleans a name and splits off its final number. */
  lemma SanitizeForm(name: string)
    ensures SanitizeToken(name) == SplitNumber(Cleaned(name))
  {
    hide Cleaned, ReplaceRuns, StripLeft, StripRight, SplitNumber, Upper;
    var words := ReplaceRuns(name, c => !IsWord(c));
    var s := Upper(words);
    var t := ReplaceRuns(s, c => c == '_');
    var u := StripRight(StripLeft(t));
    forall c: char ensures !IsWord(c) ==> !Solid(c) { CharacterKinds(c); }
    CleanedRuns(name, c => !IsWord(c));
    CleanedUpper(words);
    UnderscoreIsNotSolid();
    CleanedRuns(s, c => c == '_');
    CleanedStripLeft(t);
    CleanedStripRight(StripLeft(t));
    CoreIsToken(name);
    CleanedToken(u);
  }

  lemma CoreIsToken(name: string)
    ensures var s := Upper(ReplaceRuns(name, c => !IsWord(c)));
            Token(StripRight(StripLeft(ReplaceRuns(s, c => c == '_'))))
  {
    var words := ReplaceRuns(name, c => !IsWord(c));
    RunsToWords(name);
    var s := Upper(words);
    forall i | 0 <= i < |s|
      ensures IsTokenChar(s[i])
    {
      assert words[i] in words;
      UpperOfWord(words[i]);
    }
    CollapseIsSingle(s);
    StripLeftKeeps(ReplaceRuns(s, c => c == '_'));
    StripRightKeeps(StripLeft(ReplaceRuns(s, c => c == '_')));
  }

  // ----- names

  /** The slots of a character datafile. */
  const SLOTS: seq<string> := [
    "palette", "frame01", "frame02", "frame03", "frame04", "frame05", "frame06", "frame07",
    "frame08", "frame09", "frame10", "frame11", "frame12", "frame13", "frame14", "frame15",
    "snd_jump_lo", "snd_jump_med", "snd_jump_hi", "snd_yo", "snd_wazup", "snd_falling", "snd_edge", "music_bg"]

  lemma SlotsListed(i: nat)
    ensures CharSlot(i) == if i < 24 then Some(SLOTS[i]) else None
  {
    DecimalOfSmall(i);
    if 1 <= i < 10 { LowSlot(i); }
    if 10 <= i < 16 { HighSlot(i); }
  }

  lemma LowSlot(i: nat)
    requires 1 <= i < 10
    ensures SLOTS[i] == "frame0" + [(48 + i) as char]
  {
  }

  lemma HighSlot(i: nat)
    requires 10 <= i < 16
    ensures SLOTS[i] == "frame" + ['1', (38 + i) as char]
  {
  }

  lemma DecimalOfSmall(i: nat)
    ensures i < 10 ==> Decimal(i) == [(48 + i) as char]
    ensures 10 <= i < 20 ==> Decimal(i) == ['1', (38 + i) as char]
  {
  }

  /** An asset keeps the index and type of its record. */
  lemma AssetOfRecord(rec: Record, stems: Stems)
    requires Wanted(rec, stems).Ok?
    ensures var a := Wanted(rec, stems).value;
            rec.file in stems && a.index == rec.index && a.fourcc == rec.fourcc
  {
  }

  /** Objects of the three main datafiles: the family, the object's own name or its
      number, and the name in the identifier, where sfx15 alone loses a leading S_. */
  lemma MainAsset(rec: Record, stems: Stems)
    requires rec.file in stems && stems[rec.file] in {"data", "sfx15", "loading"}
    ensures var stem := stems[rec.file];
            var name := if rec.objectName.Some? && rec.objectName.value != "" then rec.objectName.value
                        else "OBJ_" + Decimal(rec.index);
            var short := if stem == "sfx15" && |name| >= 2 && name[0] == 'S' && name[1] == '_' then name[2..] else name;
            var (family, prefix) := if stem == "data" then ("data", "DATA")
                                    else if stem == "sfx15" then ("sfx", "SFX")
                                    else ("loading", "LOADING");
            Wanted(rec, stems)
            == Ok(Asset("ASSET_" + prefix + "_" + SanitizeToken(short), family, rec.index, name, rec.fourcc))
  {
    hide SanitizeToken, CharSlot;
    var stem := stems[rec.file];
    assert !IsCharStem(stem) by {
      assert "data"[0] != CHAR_PREFIX[0] && "sfx15"[0] != CHAR_PREFIX[0] && "loading"[0] != CHAR_PREFIX[0];
    }
    var name := if rec.objectName.Some? && rec.objectName.value != "" then rec.objectName.value
                else "OBJ_" + Decimal(rec.index);
    PrefixForm(name);
  }

  lemma PrefixForm(name: string)
    ensures StartsWith(name, "S_") <==> |name| >= 2 && name[0] == 'S' && name[1] == '_'
  {
  }

  /** Objects of a character datafile: the slot name comes before the object's own, and
      the identifier names the character up to its first underscore. */
  lemma CharacterAsset(rec: Record, stems: Stems, who: string, more: string)
    requires rec.file in stems && stems[rec.file] == "char." + who + more
    requires (forall i :: 0 <= i < |who| ==> who[i] != '_') && (more != "" ==> more[0] == '_')
    ensures Wanted(rec, stems)
            == if rec.index >= 24 && rec.objectName.None? then Err(NoName)
               else
                 var name := if rec.index < 24 then SLOTS[rec.index] else rec.objectName.value;
                 Ok(Asset("ASSET_" + ("CHAR_" + Upper(who)) + "_" + SanitizeToken(name), "char:" + who + more,
                          rec.index, name, rec.fourcc))
  {
    hide SanitizeToken, CharSlot, FirstPart;
    var stem := stems[rec.file];
    assert stem[0] == 'c' && stem[..5] == CHAR_PREFIX && stem[5..] == who + more;
    assert "data"[0] != 'c' && "sfx15"[0] != 'c' && "loading"[0] != 'c';
    SlotsListed(rec.index);
    FirstPartForm(who, more);
    assert "char:" + stem[5..] == "char:" + who + more;
  }

  lemma {:induction false} FirstPartForm(who: string, more: string)
    requires (forall i :: 0 <= i < |who| ==> who[i] != '_') && (more != "" ==> more[0] == '_')
    ensures FirstPart(who + more) == who
  {
    if who == "" {
      assert who + more == more;
    } else {
      assert (who + more)[1..] == who[1..] + more;
      FirstPartForm(who[1..], more);
    }
  }

  /** Any other stem is refused. */
  lemma OtherStem(rec: Record, stems: Stems)
    ensures rec.file !in stems ==> Wanted(rec, stems) == Err(UnknownFile)
    ensures rec.file in stems && stems[rec.file] !in {"data", "sfx15", "loading"}
            && !(|stems[rec.file]| >= 5 && stems[rec.file][..5] == "char.")
            ==> Wanted(rec, stems) == Err(UnknownStem)
  {
    hide SanitizeToken, CharSlot;
  }

  // ----- which records, and which numbers

  /** Exactly the records of datafile objects are taken, in their order. */
  lemma {:induction false} SelectedParts(a: seq<Record>, b: seq<Record>)
    ensures Selected([]) == [] && Selected(a + b) == Selected(a) + Selected(b)
    ensures |a| == 1 ==> Selected(a) == if a[0].kind == "datafile_object" then a else []
    decreases |b|
  {
    hide Selected;
    SelectedEnds(a);
    if b == [] {
      assert a + b == a;
      assert Selected(a) + [] == Selected(a);
    } else {
      var n := |b| - 1;
      SelectedParts(a, b[..n]);
      SelectedStep(b[..n], b[n]);
      SelectedStep(a + b[..n], b[n]);
      assert b == b[..n] + [b[n]] && a + b == a + b[..n] + [b[n]];
    }
  }

  lemma SelectedEnds(a: seq<Record>)
    ensures Selected([]) == []
    ensures |a| == 1 ==> Selected(a) == if a[0].kind == "datafile_object" then a else []
  {
    if |a| == 1 { SelectedStep([], a[0]); assert a == [] + [a[0]]; }
  }

  lemma SelectedStep(a: seq<Record>, x: Record)
    ensures Selected(a + [x]) == Selected(a) + (if x.kind == "datafile_object" then [x] else [])
  {
    assert (a + [x])[..|a|] == a;
  }

  /** The first number given is 2, and n comes after 2 up to n - 1. */
  lemma FirstNumbers(id: string, want: string, seen: set<string>)
    requires Given(id, want, seen)
    ensures want !in seen ==> id == want
    ensures want in seen && want + "_2" !in seen ==> id == want + "_2"
    ensures want in seen && want + "_2" in seen && want + "_3" !in seen ==> id == want + "_3"
  {
    DecimalOfSmall(2);
    DecimalOfSmall(3);
    if want in seen {
      var n :| 2 <= n && id == Numbered(want, n) && id !in seen && TakenTo(want, n, seen);
      assert Numbered(want, 2) == want + "_2" && Numbered(want, 3) == want + "_3";
      assert n > 2 ==> Numbered(want, 2) in seen;
      assert n > 3 ==> Numbered(want, 3) in seen;
    }
  }
}
