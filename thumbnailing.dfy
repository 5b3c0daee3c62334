/** Output naming for the saved photos: the EXIF shooting time, the square
    crop of a thumbnail, the `timestamp_korean[_english]` file name with its
    collision counter, the copy loop over the edited name map and the
    thumbnail bookkeeping that follows it. */
module Thumbnailing {
  import opened Common
  import opened OrderedDict
  import opened Sanitize
  import opened Tokenizer
  import opened Records

  // ---------------------------------------------------------------------
  // Shooting time from EXIF (`get_photo_datetime`)
  // ---------------------------------------------------------------------

  /** EXIF `DateTimeOriginal` and `DateTime`. */
  const DateTimeOriginalTag := 36867
  const DateTimeTag := 306

  /** What reading the shooting time can end in: no usable tag, a parsed
      time, or a tag that `strptime` rejects (its `ValueError` is not among
      the exceptions the function catches, so it reaches the caller). */
  datatype DateOutcome = NoDate | Taken(dt: DateTime) | ParseError

  /** `exif.get(tag)` read as a Python truth value: a missing or empty tag is false. */
  predicate HasTag(m: map<int, string>, tag: int)
  {
    tag in m && m[tag] != ""
  }

  /** `get_photo_datetime(img)`; `exif` is what `img._getexif()` returns and
      `parse` stands for `strptime(ds, "%Y:%m:%d %H:%M:%S")`. */
  function PhotoDateTime(exif: Option<map<int, string>>, parse: string -> Option<DateTime>): DateOutcome
  {
    if exif.None? || exif.value == map[] then NoDate
    else
      var m := exif.value;
      var ds := if HasTag(m, DateTimeOriginalTag) then m[DateTimeOriginalTag]
                else if DateTimeTag in m then m[DateTimeTag] else "";
      if ds == "" then NoDate
      else match parse(ds)
        case Some(dt) => Taken(dt)
        case None => ParseError
  }

  /** The outcome of parsing one tag value. */
  function ParseTag(ds: string, parse: string -> Option<DateTime>): DateOutcome
  {
    if ds == "" then NoDate else if parse(ds).Some? then Taken(parse(ds).value) else ParseError
  }

  /** `DateTimeOriginal` wins over `DateTime` whenever it is set, whatever
      `DateTime` holds; otherwise `DateTime` decides; with neither there is no date. */
  lemma PhotoDateTimePrecedence(m: map<int, string>, v: string, parse: string -> Option<DateTime>)
    ensures HasTag(m, DateTimeOriginalTag) ==>
              PhotoDateTime(Some(m), parse) == ParseTag(m[DateTimeOriginalTag], parse)
              && PhotoDateTime(Some(m[DateTimeTag := v]), parse) == PhotoDateTime(Some(m), parse)
    ensures !HasTag(m, DateTimeOriginalTag) && HasTag(m, DateTimeTag) ==>
              PhotoDateTime(Some(m), parse) == ParseTag(m[DateTimeTag], parse)
    ensures !HasTag(m, DateTimeOriginalTag) && !HasTag(m, DateTimeTag) ==> PhotoDateTime(Some(m), parse) == NoDate
  {
    if HasTag(m, DateTimeOriginalTag) {
      var m' := m[DateTimeTag := v];
      assert HasTag(m', DateTimeOriginalTag) && m'[DateTimeOriginalTag] == m[DateTimeOriginalTag];
      assert m' != map[];
    }
  }

  // ---------------------------------------------------------------------
  // Square crop (`create_single_thumbnail`)
  // ---------------------------------------------------------------------

  datatype Box = Box(left: int, top: int, right: int, bottom: int)

  /** The crop box for an image of `width` by `height` pixels. */
  function CropBox(width: nat, height: nat): (b: Box)
    ensures var side := if width < height then width else height;
            && b.right - b.left == side && b.bottom - b.top == side
            && 0 <= b.left && b.right <= width && 0 <= b.top && b.bottom <= height
            && b.left <= width - b.right <= b.left + 1
            && b.top <= height - b.bottom <= b.top + 1
  {
    var side := if width < height then width else height;
    var left := (width - side) / 2;
    var top := (height - side) / 2;
    Box(left, top, left + side, top + side)
  }

  // ---------------------------------------------------------------------
  // `os.path.splitext` on a bare file name
  // ---------------------------------------------------------------------

  predicate AllDots(s: string)
  {
    forall i :: 0 <= i < |s| ==> s[i] == '.'
  }

  /** `os.path.splitext(name)`: the extension runs from the last `.` to the
      end, unless only dots precede that `.` (a leading-dot name has none). */
  function Splitext(name: string): (r: (string, string))
    ensures r.0 + r.1 == name
    ensures r.1 == "" || (r.1[0] == '.' && '.' !in r.1[1..])
  {
    match LastIndexOf(name, '.')
    case None => (name, "")
    case Some(i) =>
      if AllDots(name[..i]) then (name, "")
      else
        assert name[..i] + name[i..] == name;
        (name[..i], name[i..])
  }

  /** Splitting a stem and an extension apart gives them back. */
  lemma SplitextOf(stem: string, ext: string)
    requires !AllDots(stem)
    requires ext != "" && ext[0] == '.' && '.' !in ext[1..]
    ensures Splitext(stem + ext) == (stem, ext)
  {
    var s := stem + ext;
    assert s[|stem|] == '.' && s[..|stem|] == stem && s[|stem|..] == ext;
  }

  /** The extension of a file name without any `.` is empty. */
  lemma SplitextNoDot(name: string)
    requires '.' !in name
    ensures Splitext(name) == (name, "")
  {
  }

  // ---------------------------------------------------------------------
  // The new base name
  // ---------------------------------------------------------------------

  /** "N/A" as the sanitiser leaves it (see SanitizedNotAvailable). */
  const SanitizedNotAvailable := "NA"

  /** The English part of the name is used when its sanitised form is
      non-empty and is not the sanitised "N/A" sentinel. */
  predicate UsesEnglish(engClean: string)
  {
    engClean != "" && engClean != SanitizedNotAvailable
  }

  /** The guard as the source writes it: it compares against "N_A". */
  predicate UsesEnglishAsWritten(engClean: string)
  {
    engClean != "" && engClean != "N_A"
  }

  /** The f-strings of `new_base`, from the sanitised names. */
  function ComposeBase(dt: Option<DateTime>, kor: string, eng: string, withEnglish: bool): string
  {
    var name := if withEnglish then kor + "_" + eng else kor;
    if dt.Some? then Timestamp(dt.value) + "_" + name else name
  }

  /** The base name with the guard as intended: a photo taken at `dt`,
      renamed to `birdName`, whose resolved English name is `commonName`,
      and the "N/A" sentinel left out (the corrected half of a finding). */
  function NewBase(dt: Option<DateTime>, birdName: string, commonName: string): string
  {
    var eng := SanitizeFilename(Some(commonName));
    ComposeBase(dt, SanitizeFilename(Some(birdName)), eng, UsesEnglish(eng))
  }

  /** `new_base` as the copy loop composes it (thumbnailing.py), with the
      guard comparing the sanitised English name to "N_A". */
  function NewBaseAsWritten(dt: Option<DateTime>, birdName: string, commonName: string): string
  {
    var eng := SanitizeFilename(Some(commonName));
    ComposeBase(dt, SanitizeFilename(Some(birdName)), eng, UsesEnglishAsWritten(eng))
  }

  /** The sanitiser only deletes the slash of "N/A". */
  lemma SanitizeNotAvailable()
    ensures SanitizeFilename(Some(NotAvailable)) == SanitizedNotAvailable
  {
    var s: string := NotAvailable;
    SentinelHasNoSpace();
    DeleteCharAbsent(s, '*');
    SlashDeleted();
  }

  lemma SentinelHasNoSpace()
    ensures NoSpace(NotAvailable) && NoSpace(SanitizedNotAvailable)
  {
    var s: string := NotAvailable;
    assert !IsSpace(s[0]) && !IsSpace(s[1]) && !IsSpace(s[2]);
    var t: string := SanitizedNotAvailable;
    assert !IsSpace(t[0]) && !IsSpace(t[1]);
  }

  lemma SlashDeleted()
    ensures DeleteForbidden(NotAvailable) == SanitizedNotAvailable
  {
    var s: string := NotAvailable;
    assert s == ['N'] + ['/'] + ['A'];
    assert DeleteForbidden(['A']) == ['A'];
  }

  /** As written, an unresolved English name reaches the file name as "_NA". */
  lemma NotAvailableKeptAsWritten(dt: Option<DateTime>, birdName: string)
    ensures NewBaseAsWritten(dt, birdName, NotAvailable) == ComposeBase(dt, SanitizeFilename(Some(birdName)), "NA", true)
  {
    SanitizeNotAvailable();
    assert |SanitizedNotAvailable| != |"N_A"|;
  }

  /** The sentinel never reaches the file name: an unresolved English name
      gives the same base as no English name at all. */
  lemma NotAvailableDropped(dt: Option<DateTime>, birdName: string)
    ensures NewBase(dt, birdName, NotAvailable) == NewBase(dt, birdName, "")
  {
    SanitizeNotAvailable();
  }

  /** An English name that passes the guard is kept, after the Korean name
      and an underscore. */
  lemma EnglishNameKept(dt: Option<DateTime>, birdName: string, commonName: string)
    requires UsesEnglishAsWritten(SanitizeFilename(Some(commonName)))
    ensures var tail := SanitizeFilename(Some(birdName)) + "_" + SanitizeFilename(Some(commonName));
            NewBaseAsWritten(dt, birdName, commonName) == if dt.Some? then Timestamp(dt.value) + "_" + tail else tail
  {
  }

  /** An English name that sanitises to "" or "N_A" is left out. */
  lemma EnglishNameOmitted(dt: Option<DateTime>, birdName: string, commonName: string)
    requires !UsesEnglishAsWritten(SanitizeFilename(Some(commonName)))
    ensures var kor := SanitizeFilename(Some(birdName));
            NewBaseAsWritten(dt, birdName, commonName) == if dt.Some? then Timestamp(dt.value) + "_" + kor else kor
  {
  }

  lemma {:induction false} DigitsAreSafe(s: string)
    requires AllDigits(s)
    ensures NoSpace(s) && NoForbidden(s)
  {
  }

  lemma SafeConcat(a: string, b: string)
    requires NoSpace(a) && NoForbidden(a) && NoSpace(b) && NoForbidden(b)
    ensures NoSpace(a + b) && NoForbidden(a + b)
  {
  }

  lemma {:induction false} DigitsConcat(a: string, b: string, c: string)
    requires AllDigits(a) && AllDigits(b) && AllDigits(c)
    ensures AllDigits(a + b + c)
  {
  }

  /** The timestamp is digits around one underscore. */
  lemma TimestampIsSafe(dt: DateTime)
    ensures NoSpace(Timestamp(dt)) && NoForbidden(Timestamp(dt))
  {
    var y, mo, d := PadDigits(dt.year, 4), PadDigits(dt.month, 2), PadDigits(dt.day, 2);
    var h, mi, s := PadDigits(dt.hour, 2), PadDigits(dt.minute, 2), PadDigits(dt.second, 2);
    DigitsConcat(y, mo, d);
    DigitsConcat(h, mi, s);
    DigitsAreSafe(y + mo + d);
    DigitsAreSafe(h + mi + s);
    assert NoSpace("_") && NoForbidden("_");
    SafeConcat(y + mo + d, "_");
    SafeConcat(y + mo + d + "_", h + mi + s);
  }

  /** A new base name holds no character a file name may not carry, and no whitespace. */
  lemma NewBaseAsWrittenIsSafe(dt: Option<DateTime>, birdName: string, commonName: string)
    ensures NoSpace(NewBaseAsWritten(dt, birdName, commonName)) && NoForbidden(NewBaseAsWritten(dt, birdName, commonName))
  {
    var eng := SanitizeFilename(Some(commonName));
    ComposeBaseIsSafe(dt, SanitizeFilename(Some(birdName)), eng, UsesEnglishAsWritten(eng));
  }

  lemma NewBaseIsSafe(dt: Option<DateTime>, birdName: string, commonName: string)
    ensures NoSpace(NewBase(dt, birdName, commonName)) && NoForbidden(NewBase(dt, birdName, commonName))
  {
    var eng := SanitizeFilename(Some(commonName));
    ComposeBaseIsSafe(dt, SanitizeFilename(Some(birdName)), eng, UsesEnglish(eng));
  }

  lemma ComposeBaseIsSafe(dt: Option<DateTime>, kor: string, eng: string, withEnglish: bool)
    requires NoSpace(kor) && NoForbidden(kor) && NoSpace(eng) && NoForbidden(eng)
    ensures NoSpace(ComposeBase(dt, kor, eng, withEnglish)) && NoForbidden(ComposeBase(dt, kor, eng, withEnglish))
  {
    assert NoSpace("_") && NoForbidden("_");
    SafeConcat(kor, "_");
    SafeConcat(kor + "_", eng);
    var name := if withEnglish then kor + "_" + eng else kor;
    if dt.Some? {
      TimestampIsSafe(dt.value);
      SafeConcat(Timestamp(dt.value), "_");
      SafeConcat(Timestamp(dt.value) + "_", name);
    }
  }

  // ---------------------------------------------------------------------
  // Collision counter
  // ---------------------------------------------------------------------

  /** The `k`-th name tried: `base + ext`, then `base_1 + ext`, `base_2 + ext`, ... */
  function CollisionName(base: string, ext: string, k: nat): string
  {
    if k == 0 then base + ext else base + "_" + NatToString(k) + ext
  }

  /** Different counters give different names. */
  lemma CollisionNameInjective(base: string, ext: string, i: nat, j: nat)
    requires CollisionName(base, ext, i) == CollisionName(base, ext, j)
    ensures i == j
  {
    if i != 0 && j != 0 {
      var x := CollisionName(base, ext, i);
      var di, dj := NatToString(i), NatToString(j);
      assert |di| == |dj|;
      var lo := |base| + 1;
      assert x[lo..lo + |di|] == di by {
        assert x == base + "_" + di + ext;
      }
      assert x[lo..lo + |dj|] == dj by {
        assert x == base + "_" + dj + ext;
      }
      NatToStringInjective(i, j);
    }
  }

  ghost predicate TriedBefore(x: string, base: string, ext: string, k: nat)
  {
    exists j :: 0 <= j < k && x == CollisionName(base, ext, j)
  }

  /** The free-name loop of `copy_and_rename_files`: the first of
      `base + ext`, `base_1 + ext`, ... that the directory does not hold. */
  method FreeName(base: string, ext: string, dir: set<string>) returns (name: string, ghost k: nat)
    ensures name !in dir
    ensures name == CollisionName(base, ext, k)
    ensures forall j :: 0 <= j < k ==> CollisionName(base, ext, j) in dir
  {
    var counter := 1;
    name := base + ext;
    k := 0;
    ghost var tried: set<string> := {};
    while name in dir
      invariant counter == k + 1
      invariant name == CollisionName(base, ext, k)
      invariant forall j :: 0 <= j < k ==> CollisionName(base, ext, j) in dir
      invariant tried <= dir
      invariant forall x :: x in tried ==> TriedBefore(x, base, ext, k)
      decreases |dir - tried|
    {
      assert name !in tried by {
        if name in tried {
          var j :| 0 <= j < k && name == CollisionName(base, ext, j);
          CollisionNameInjective(base, ext, j, k);
        }
      }
      assert TriedBefore(name, base, ext, k + 1);
      assert forall j :: 0 <= j < k + 1 ==> CollisionName(base, ext, j) in dir;
      assert CollisionName(base, ext, k + 1) == base + "_" + NatToString(counter) + ext;
      tried := tried + {name};
      name := base + "_" + NatToString(counter) + ext;
      counter := counter + 1;
      k := k + 1;
    }
  }

  // ---------------------------------------------------------------------
  // Copying and renaming (`copy_and_rename_files`)
  // ---------------------------------------------------------------------

  /** The part of a loaded photo's record that saving reads. */
  datatype Photo = Photo(originalFilename: string, dateTime: Option<DateTime>)

  /** One entry of the returned `copied_files` list; the folder paths are
      the two directories joined with these names. */
  datatype CopyRecord = CopyRecord(originalFilename: string, newFilename: string,
                                   birdName: string, dateTime: Option<DateTime>)

  /** The index of the first photo at or after `from` with file name `name`. */
  function FirstPhotoNamed(photos: seq<Photo>, name: string, from: nat): (r: Option<nat>)
    decreases |photos| - from
    ensures r.Some? ==> from <= r.value < |photos| && photos[r.value].originalFilename == name
                        && forall l :: from <= l < r.value ==> photos[l].originalFilename != name
    ensures r.None? ==> forall l :: from <= l < |photos| ==> photos[l].originalFilename != name
  {
    if from >= |photos| then None
    else if photos[from].originalFilename == name then Some(from)
    else FirstPhotoNamed(photos, name, from + 1)
  }

  /** The shooting time the copy loop finds for `name`: groups are scanned
      in order, each up to its first photo of that name, until that photo
      carries a time. */
  function ShotTime(groups: seq<seq<Photo>>, name: string): Option<DateTime>
  {
    if groups == [] then None
    else
      var i := FirstPhotoNamed(groups[0], name, 0);
      if i.Some? && groups[0][i.value].dateTime.Some? then groups[0][i.value].dateTime
      else ShotTime(groups[1..], name)
  }

  /** A time found belongs to some photo of that name. */
  lemma {:induction false} ShotTimeFromPhoto(groups: seq<seq<Photo>>, name: string)
    requires ShotTime(groups, name).Some?
    ensures exists g, j :: 0 <= g < |groups| && 0 <= j < |groups[g]|
              && groups[g][j].originalFilename == name && groups[g][j].dateTime == ShotTime(groups, name)
  {
    var i := FirstPhotoNamed(groups[0], name, 0);
    if i.Some? && groups[0][i.value].dateTime.Some? {
      assert groups[0][i.value].originalFilename == name;
    } else {
      ShotTimeFromPhoto(groups[1..], name);
      var g, j :| 0 <= g < |groups[1..]| && 0 <= j < |groups[1..][g]|
                 && groups[1..][g][j].originalFilename == name && groups[1..][g][j].dateTime == ShotTime(groups, name);
      assert groups[g + 1][j] == groups[1..][g][j];
    }
  }

  /** A file that appears in exactly one place gets that photo's time. */
  lemma {:induction false} ShotTimeOfOnlyPhoto(groups: seq<seq<Photo>>, name: string, g: nat, j: nat)
    requires g < |groups| && j < |groups[g]| && groups[g][j].originalFilename == name
    requires forall h, l :: 0 <= h < |groups| && 0 <= l < |groups[h]| && groups[h][l].originalFilename == name
                            ==> h == g && l == j
    ensures ShotTime(groups, name) == groups[g][j].dateTime
  {
    var i := FirstPhotoNamed(groups[0], name, 0);
    if g == 0 {
      assert i == Some(j);
      if groups[0][j].dateTime.None? {
        ShotTimeNone(groups[1..], name);
      }
    } else {
      var rest: seq<seq<Photo>> := groups[1..];
      assert rest[g - 1][j] == groups[g][j];
      forall h, l | 0 <= h < |rest| && 0 <= l < |rest[h]| && rest[h][l].originalFilename == name
        ensures h == g - 1 && l == j
      {
        assert groups[h + 1][l] == rest[h][l];
      }
      ShotTimeOfOnlyPhoto(rest, name, g - 1, j);
    }
  }

  /** Without any photo of that name there is no time. */
  lemma {:induction false} ShotTimeNone(groups: seq<seq<Photo>>, name: string)
    requires forall h, l :: 0 <= h < |groups| && 0 <= l < |groups[h]| ==> groups[h][l].originalFilename != name
    ensures ShotTime(groups, name) == None
  {
    if groups != [] {
      var rest: seq<seq<Photo>> := groups[1..];
      forall h, l | 0 <= h < |rest| && 0 <= l < |rest[h]|
        ensures rest[h][l].originalFilename != name
      {
        assert groups[h + 1][l] == rest[h][l];
      }
      ShotTimeNone(rest, name);
    }
  }

  /** The nested search loop for the shooting time. */
  method FindShotTime(groups: seq<seq<Photo>>, name: string) returns (dt: Option<DateTime>)
    ensures dt == ShotTime(groups, name)
  {
    dt := None;
    var g := 0;
    while g < |groups|
      invariant 0 <= g <= |groups|
      invariant ShotTime(groups[g..], name) == ShotTime(groups, name)
      invariant dt.None?
    {
      var photos := groups[g];
      var j := 0;
      while j < |photos| && photos[j].originalFilename != name
        invariant 0 <= j <= |photos|
        invariant forall l :: 0 <= l < j ==> photos[l].originalFilename != name
      {
        j := j + 1;
      }
      assert FirstPhotoNamed(photos, name, 0) == if j < |photos| then Some(j) else None;
      if j < |photos| {
        dt := photos[j].dateTime;
        if dt.Some? {
          return;
        }
      }
      assert groups[g..][1..] == groups[g + 1..];
      g := g + 1;
    }
  }

  /** `bird_info_map.get(bird, {}).get("common_name", "")` */
  function CommonNameOf(infos: map<string, BirdInfo>, bird: string): string
  {
    if bird in infos then infos[bird].taxa.commonName else ""
  }

  /** Whether the loop copies `file`: it is named, it exists in the source
      folder and its copy does not fail. */
  predicate Copies(names: map<string, string>, sources: set<string>, fails: set<string>, file: string)
  {
    file in names && names[file] != Unclassified && file in sources && file !in fails
  }

  /** The files the loop copies, in the name map's order. */
  function Eligible(keys: seq<string>, names: map<string, string>, sources: set<string>, fails: set<string>): (r: seq<string>)
    ensures |r| <= |keys|
  {
    if keys == [] then []
    else
      var last := keys[|keys| - 1];
      Eligible(keys[..|keys| - 1], names, sources, fails) + (if Copies(names, sources, fails, last) then [last] else [])
  }

  ghost predicate IsCollisionName(name: string, base: string, ext: string)
  {
    exists k: nat :: name == CollisionName(base, ext, k)
  }

  /** The base name the loop composes for each file: the shooting time,
      the file's bird and that bird's English name, under the
      source's "N_A" guard. */
  ghost function BaseNameOf(names: map<string, string>, groups: seq<seq<Photo>>,
                            infos: map<string, BirdInfo>): string -> string
  {
    file => if file in names then NewBaseAsWritten(ShotTime(groups, file), names[file], CommonNameOf(infos, names[file])) else ""
  }

  /** What the record for `file` holds: its name, its bird, the shooting
      time found for it, and a collision variant of its base name (as
      `baseOf` gives it) with the original extension. */
  ghost predicate CopiedAs(r: CopyRecord, file: string, names: map<string, string>,
                           groups: seq<seq<Photo>>, baseOf: string -> string)
  {
    && file in names
    && r.originalFilename == file && r.birdName == names[file]
    && r.dateTime == ShotTime(groups, file)
    && IsCollisionName(r.newFilename, baseOf(file), Splitext(file).1)
  }

  /** `copied[i]` is CopiedAs `files[i]`, for every `i`. */
  ghost predicate AllCopiedAs(copied: seq<CopyRecord>, files: seq<string>, names: map<string, string>,
                              groups: seq<seq<Photo>>, baseOf: string -> string)
    decreases |copied|
  {
    && |copied| == |files|
    && (copied != [] ==>
          && AllCopiedAs(copied[..|copied| - 1], files[..|files| - 1], names, groups, baseOf)
          && CopiedAs(copied[|copied| - 1], files[|files| - 1], names, groups, baseOf))
  }

  lemma {:induction false} AllCopiedAsAt(copied: seq<CopyRecord>, files: seq<string>, names: map<string, string>,
                                         groups: seq<seq<Photo>>, baseOf: string -> string, i: nat)
    requires AllCopiedAs(copied, files, names, groups, baseOf) && i < |copied|
    ensures CopiedAs(copied[i], files[i], names, groups, baseOf)
  {
    if i < |copied| - 1 {
      AllCopiedAsAt(copied[..|copied| - 1], files[..|files| - 1], names, groups, baseOf, i);
    }
  }

  lemma AllCopiedAsAppend(copied: seq<CopyRecord>, files: seq<string>, r: CopyRecord, file: string,
                          names: map<string, string>, groups: seq<seq<Photo>>, baseOf: string -> string)
    requires AllCopiedAs(copied, files, names, groups, baseOf) && CopiedAs(r, file, names, groups, baseOf)
    ensures AllCopiedAs(copied + [r], files + [file], names, groups, baseOf)
  {
    assert (copied + [r])[..|copied|] == copied;
    assert (files + [file])[..|files|] == files;
  }

  /** Reading the loop's result: the `i`-th copy is of the `i`-th copied
      file, under that file's bird, found time and a free variant of
      `{time}_{korean}[_{english}]` with the original extension. */
  lemma CopiedRecord(copied: seq<CopyRecord>, files: seq<string>, names: map<string, string>,
                     groups: seq<seq<Photo>>, infos: map<string, BirdInfo>, i: nat)
    requires AllCopiedAs(copied, files, names, groups, BaseNameOf(names, groups, infos)) && i < |copied|
    ensures files[i] in names && copied[i].originalFilename == files[i] && copied[i].birdName == names[files[i]]
    ensures copied[i].dateTime == ShotTime(groups, files[i])
    ensures exists k: nat :: copied[i].newFilename
              == CollisionName(NewBaseAsWritten(copied[i].dateTime, names[files[i]], CommonNameOf(infos, names[files[i]])),
                               Splitext(files[i]).1, k)
  {
    AllCopiedAsAt(copied, files, names, groups, BaseNameOf(names, groups, infos), i);
  }

  /** Reading the loop's result: the `i`-th copy took the first variant of
      its base name that was free at its turn, every lower counter being held
      by the folder before the run or by an earlier copy. */
  lemma CopiedFirstFree(copied: seq<CopyRecord>, files: seq<string>, dir: set<string>, existing: set<string>,
                        names: map<string, string>, groups: seq<seq<Photo>>, infos: map<string, BirdInfo>, i: nat)
    requires Progress(copied, files, dir, existing, names, groups, BaseNameOf(names, groups, infos)) && i < |copied|
    ensures files[i] in names
    ensures FirstFree(copied[i].newFilename,
                      NewBaseAsWritten(copied[i].dateTime, names[files[i]], CommonNameOf(infos, names[files[i]])),
                      Splitext(files[i]).1, existing + NameSet(copied[..i]))
  {
    var baseOf := BaseNameOf(names, groups, infos);
    AllCopiedAsAt(copied, files, names, groups, baseOf, i);
    var before := existing + NameSet(copied[..i]);
    assert FirstFree(copied[i].newFilename, baseOf(files[i]), Splitext(files[i]).1, before);
    assert baseOf(files[i]) == NewBaseAsWritten(copied[i].dateTime, names[files[i]], CommonNameOf(infos, names[files[i]]));
  }

  function NameSet(rs: seq<CopyRecord>): set<string>
  {
    if rs == [] then {} else NameSet(rs[..|rs| - 1]) + {rs[|rs| - 1].newFilename}
  }

  lemma {:induction false} NameSetMembers(rs: seq<CopyRecord>)
    ensures forall x :: x in NameSet(rs) <==> exists i :: 0 <= i < |rs| && rs[i].newFilename == x
  {
    if rs != [] {
      var init := rs[..|rs| - 1];
      NameSetMembers(init);
      forall x | x in NameSet(rs) ensures exists i :: 0 <= i < |rs| && rs[i].newFilename == x {
        if x in NameSet(init) {
          var i :| 0 <= i < |init| && init[i].newFilename == x;
          assert rs[i] == init[i];
        }
      }
      forall i | 0 <= i < |rs| ensures rs[i].newFilename in NameSet(rs) {
        if i < |init| { assert init[i] == rs[i]; }
      }
    }
  }

  /** `name` is the first of the variants of `base` with extension `ext`
      that `dir` does not hold: every earlier counter is taken. */
  ghost predicate FirstFree(name: string, base: string, ext: string, dir: set<string>)
  {
    && name !in dir
    && exists k: nat :: name == CollisionName(base, ext, k)
                        && forall j :: 0 <= j < k ==> CollisionName(base, ext, j) in dir
  }

  /** One pass of the copy loop for a file that is copied: find its time,
      compose its name, pick the first free variant, add it to the folder. */
  method CopyOne(file: string, names: map<string, string>, groups: seq<seq<Photo>>,
                 infos: map<string, BirdInfo>, dir: set<string>)
    returns (record: CopyRecord, dir': set<string>)
    requires file in names
    ensures CopiedAs(record, file, names, groups, BaseNameOf(names, groups, infos))
    ensures FirstFree(record.newFilename, BaseNameOf(names, groups, infos)(file), Splitext(file).1, dir)
    ensures record.newFilename !in dir && dir' == dir + {record.newFilename}
  {
    var bird := names[file];
    var dt := FindShotTime(groups, file);
    var base := NewBaseAsWritten(dt, bird, CommonNameOf(infos, bird));
    var ext := Splitext(file).1;
    var final, k := FreeName(base, ext, dir);
    assert final == CollisionName(base, ext, k);
    assert base == BaseNameOf(names, groups, infos)(file);
    record := CopyRecord(file, final, bird, dt);
    dir' := dir + {final};
  }

  lemma EligibleStep(keys: seq<string>, n: nat, names: map<string, string>, sources: set<string>, fails: set<string>)
    requires n < |keys|
    ensures Eligible(keys[..n + 1], names, sources, fails)
            == Eligible(keys[..n], names, sources, fails) + (if Copies(names, sources, fails, keys[n]) then [keys[n]] else [])
  {
    assert keys[..n + 1][..n] == keys[..n];
  }

  lemma NameSetAppend(rs: seq<CopyRecord>, r: CopyRecord)
    ensures NameSet(rs + [r]) == NameSet(rs) + {r.newFilename}
  {
    assert (rs + [r])[..|rs|] == rs;
  }

  /** What the copy loop has produced so far: a record per copied file, each
      named by the first variant free when it was copied, the output folder
      grown by exactly their names, and names that are new to the folder and
      distinct from each other. */
  ghost predicate Progress(copied: seq<CopyRecord>, files: seq<string>, dir: set<string>, existing: set<string>,
                           names: map<string, string>, groups: seq<seq<Photo>>, baseOf: string -> string)
  {
    && AllCopiedAs(copied, files, names, groups, baseOf)
    && |copied| == |files|
    && (forall i :: 0 <= i < |copied| ==>
          FirstFree(copied[i].newFilename, baseOf(files[i]), Splitext(files[i]).1, existing + NameSet(copied[..i])))
    && dir == existing + NameSet(copied)
    && (forall i :: 0 <= i < |copied| ==> copied[i].newFilename in dir && copied[i].newFilename !in existing)
    && (forall i, j :: 0 <= i < j < |copied| ==> copied[i].newFilename != copied[j].newFilename)
  }

  /** The loop body for a file that is copied. */
  method CopyStep(file: string, names: map<string, string>, groups: seq<seq<Photo>>, infos: map<string, BirdInfo>,
                  copied: seq<CopyRecord>, ghost files: seq<string>, dir: set<string>, existing: set<string>)
    returns (copied': seq<CopyRecord>, dir': set<string>)
    requires file in names
    requires Progress(copied, files, dir, existing, names, groups, BaseNameOf(names, groups, infos))
    ensures Progress(copied', files + [file], dir', existing, names, groups, BaseNameOf(names, groups, infos))
    ensures |copied'| == |copied| + 1 && copied'[..|copied|] == copied
  {
    var record, d := CopyOne(file, names, groups, infos, dir);
    NameSetAppend(copied, record);
    AllCopiedAsAppend(copied, files, record, file, names, groups, BaseNameOf(names, groups, infos));
    FreshAppend(copied, record, dir, existing);
    copied', dir' := copied + [record], d;
    assert copied'[..|copied|] == copied;
    FirstFreeAppend(copied, files, record, file, existing, BaseNameOf(names, groups, infos));
  }

  /** The copy loop over `bird_name_map` (`copy_and_rename_files`); `sources`
      are the files present in the source folder, `fails` those whose copy
      raises, `existing` the output folder's names before the run. */
  method CopyAndRenameFiles(birdNameMap: Dict<string, string>, speciesPhotoMap: Dict<string, seq<Photo>>,
                            birdInfoMap: map<string, BirdInfo>, sources: set<string>, fails: set<string>,
                            existing: set<string>)
    returns (copied: seq<CopyRecord>, dir: set<string>)
    requires birdNameMap.Valid() && speciesPhotoMap.Valid()
    ensures Progress(copied, Eligible(birdNameMap.keys, birdNameMap.items, sources, fails), dir, existing,
                     birdNameMap.items, Values(speciesPhotoMap),
                     BaseNameOf(birdNameMap.items, Values(speciesPhotoMap), birdInfoMap))
  {
    var keys, names := birdNameMap.keys, birdNameMap.items;
    var groups := Values(speciesPhotoMap);
    copied, dir := [], existing;
    ghost var files: seq<string> := [];
    var n := 0;
    while n < |keys|
      invariant 0 <= n <= |keys|
      invariant files == Eligible(keys[..n], names, sources, fails)
      invariant Progress(copied, files, dir, existing, names, groups, BaseNameOf(names, groups, birdInfoMap))
    {
      var file := keys[n];
      EligibleStep(keys, n, names, sources, fails);
      if names[file] != Unclassified && file in sources && file !in fails {
        copied, dir := CopyStep(file, names, groups, birdInfoMap, copied, files, dir, existing);
        files := files + [file];
      }
      n := n + 1;
    }
    assert keys[..n] == keys;
  }

  /** Appending a record named by the first variant free after the earlier
      copies keeps every record's name the first free one at its turn. */
  lemma FirstFreeAppend(copied: seq<CopyRecord>, files: seq<string>, record: CopyRecord, file: string,
                        existing: set<string>, baseOf: string -> string)
    requires |copied| == |files|
    requires forall i :: 0 <= i < |copied| ==>
               FirstFree(copied[i].newFilename, baseOf(files[i]), Splitext(files[i]).1, existing + NameSet(copied[..i]))
    requires FirstFree(record.newFilename, baseOf(file), Splitext(file).1, existing + NameSet(copied))
    ensures var c, f := copied + [record], files + [file];
            forall i :: 0 <= i < |c| ==>
              FirstFree(c[i].newFilename, baseOf(f[i]), Splitext(f[i]).1, existing + NameSet(c[..i]))
  {
    var c, f := copied + [record], files + [file];
    forall i | 0 <= i < |c|
      ensures FirstFree(c[i].newFilename, baseOf(f[i]), Splitext(f[i]).1, existing + NameSet(c[..i]))
    {
      if i < |copied| {
        assert c[..i] == copied[..i] && c[i] == copied[i] && f[i] == files[i];
      } else {
        assert c[..i] == copied;
      }
    }
  }

  /** Appending a record whose name is new to the folder keeps the names fresh and distinct. */
  lemma FreshAppend(copied: seq<CopyRecord>, record: CopyRecord, dir: set<string>, existing: set<string>)
    requires forall i :: 0 <= i < |copied| ==> copied[i].newFilename in dir && copied[i].newFilename !in existing
    requires forall i, j :: 0 <= i < j < |copied| ==> copied[i].newFilename != copied[j].newFilename
    requires existing <= dir && record.newFilename !in dir
    ensures var c := copied + [record];
            && (forall i :: 0 <= i < |c| ==> c[i].newFilename in dir + {record.newFilename} && c[i].newFilename !in existing)
            && (forall i, j :: 0 <= i < j < |c| ==> c[i].newFilename != c[j].newFilename)
  {
  }

  // ---------------------------------------------------------------------
  // Thumbnails for the copies (`update_thumbnails_for_copied_files`)
  // ---------------------------------------------------------------------

  /** A copy record after the thumbnail pass: `new_thumbnail_path`, or
      `None` when the thumbnail could not be made. */
  datatype ThumbRecord = ThumbRecord(copy: CopyRecord, thumbnail: Option<string>)

  /** `f"{os.path.splitext(name)[0]}_thumb.jpg"` */
  function ThumbnailName(name: string): string
  {
    Splitext(name).0 + "_thumb.jpg"
  }

  /** Two copies that differ only in their extension share one thumbnail name. */
  lemma ThumbnailNameIgnoresExtension(stem: string, ext1: string, ext2: string)
    requires !AllDots(stem)
    requires ext1 != "" && ext1[0] == '.' && '.' !in ext1[1..]
    requires ext2 != "" && ext2[0] == '.' && '.' !in ext2[1..]
    ensures ThumbnailName(stem + ext1) == ThumbnailName(stem + ext2) == stem + "_thumb.jpg"
  {
    SplitextOf(stem, ext1);
    SplitextOf(stem, ext2);
  }

  /** The number of records that got a thumbnail. */
  function Successes(rs: seq<ThumbRecord>): (n: nat)
    ensures n <= |rs|
  {
    if rs == [] then 0 else Successes(rs[..|rs| - 1]) + (if rs[|rs| - 1].thumbnail.Some? then 1 else 0)
  }

  /** `new_thumbnail_path` for one copy: its thumbnail name when making it succeeds. */
  function ThumbnailOutcome(info: CopyRecord, created: string -> bool): Option<string>
  {
    if created(info.newFilename) then Some(ThumbnailName(info.newFilename)) else None
  }

  /** The thumbnail pass; `created(name)` says whether making the thumbnail
      of the copy `name` succeeds. */
  method UpdateThumbnails(copied: seq<CopyRecord>, created: string -> bool)
    returns (updated: seq<ThumbRecord>, successCount: nat)
    ensures |updated| == |copied|
    ensures forall i :: 0 <= i < |copied| ==> updated[i].copy == copied[i]
    ensures forall i :: 0 <= i < |copied| ==> updated[i].thumbnail == ThumbnailOutcome(copied[i], created)
    ensures successCount == Successes(updated) <= |copied|
  {
    updated, successCount := [], 0;
    for n := 0 to |copied|
      invariant |updated| == n
      invariant forall i :: 0 <= i < n ==> updated[i].copy == copied[i]
      invariant forall i :: 0 <= i < n ==> updated[i].thumbnail == ThumbnailOutcome(copied[i], created)
      invariant successCount == Successes(updated)
    {
      var info := copied[n];
      var thumb := ThumbnailName(info.newFilename);
      var record;
      if created(info.newFilename) {
        record := ThumbRecord(info, Some(thumb));
        successCount := successCount + 1;
      } else {
        record := ThumbRecord(info, None);
      }
      assert (updated + [record])[..n] == updated;
      updated := updated + [record];
    }
  }
}
