/** The editor window as an object: the three maps it keeps while a folder
    is open, updated in place by loading a folder and by renaming a group.
    What the updates compute is described in module Editor. */
module EditorApp {
  import opened Common
  import opened OrderedDict
  import opened Sorting
  import opened Records
  import opened Wiki
  import opened Resolve
  import opened Thumbnailing
  import opened Editor

  // =====================================================================
  // The editor
  // =====================================================================

  class BirdNameEditor {
    var speciesPhotoMap: Dict<string, seq<Photo>>
    var birdNameMap: Dict<string, string>
    var birdInfoMap: map<string, BirdInfo>
    /** The reference table and the encyclopedia client loaded at start-up. */
    const csv: Option<Table>
    const wiki: Option<WikiClient>
    const patterns: Patterns

    ghost predicate Valid()
      reads this
    {
      speciesPhotoMap.Valid() && birdNameMap.Valid()
    }

    /** The maps start empty. */
    constructor (csv: Option<Table>, wiki: Option<WikiClient>, patterns: Patterns)
      ensures Valid() && Coherent(speciesPhotoMap, birdNameMap)
      ensures speciesPhotoMap == Empty() && birdNameMap == Empty() && birdInfoMap == map[]
      ensures this.csv == csv && this.wiki == wiki && this.patterns == patterns
    {
      speciesPhotoMap := Empty();
      birdNameMap := Empty();
      birdInfoMap := map[];
      this.csv := csv;
      this.wiki := wiki;
      this.patterns := patterns;
    }

    /** `select_folder_and_load` clears the maps, then `load_photos_thread`
        files every image of the listing under its initial name, resolving
        each new name once. `lookups` counts the resolver calls. */
    method LoadFolder(listing: seq<string>, exif: string -> Option<map<int, string>>, parse: string -> Option<DateTime>)
      returns (ghost lookups: nat)
      modifies this
      ensures Valid() && Coherent(speciesPhotoMap, birdNameMap)
      ensures speciesPhotoMap == LoadedGroups(ImageFiles(listing), InitialName, FileDateTime(exif, parse))
      ensures birdNameMap == LoadedNames(ImageFiles(listing), InitialName)
      ensures birdInfoMap == LoadedInfos(ImageFiles(listing), InitialName, Resolver(csv, wiki, patterns))
      ensures lookups == ResolveCalls(ImageFiles(listing), InitialName, Resolver(csv, wiki, patterns)) == |birdInfoMap.Keys|
    {
      var allFiles := ImageFiles(listing);
      var groups, names, infos;
      groups, names, infos, lookups := LoadFiles(allFiles, InitialName, FileDateTime(exif, parse), Resolver(csv, wiki, patterns));
      speciesPhotoMap, birdNameMap, birdInfoMap := groups, names, infos;
      LoadedCoherent(allFiles, InitialName, FileDateTime(exif, parse));
      LoadedInfosMeaning(allFiles, InitialName, Resolver(csv, wiki, patterns));
      ResolveCallsOncePerName(allFiles, InitialName, Resolver(csv, wiki, patterns));
    }

    /** `update_group_name(old, new)` */
    method UpdateGroupName(oldName: string, newName: string) returns (outcome: RenameOutcome)
      requires Valid()
      modifies this
      ensures Valid()
      ensures outcome == Rejected <==> newName == "" || newName == oldName
      ensures outcome == Rejected ==> unchanged(this)
      ensures outcome != Rejected ==>
                && (outcome == OldGroupMissing <==> oldName !in old(speciesPhotoMap.items))
                && birdInfoMap == old(birdInfoMap)[newName := Resolver(csv, wiki, patterns)(newName)]
                && birdNameMap == Retag(old(birdNameMap), Get(old(speciesPhotoMap), oldName, []), newName)
                && speciesPhotoMap == RenameGroup(old(speciesPhotoMap), oldName, newName)
      ensures outcome != Rejected && old(Coherent(speciesPhotoMap, birdNameMap)) ==> Coherent(speciesPhotoMap, birdNameMap)
    {
      if newName == "" || newName == oldName {
        return Rejected;
      }
      var infos := birdInfoMap[newName := Resolver(csv, wiki, patterns)(newName)];
      var photoList := Get(speciesPhotoMap, oldName, []);
      var names := RemapFiles(birdNameMap, photoList, newName);
      var groups, found := MoveGroup(speciesPhotoMap, oldName, newName);
      speciesPhotoMap, birdNameMap, birdInfoMap := groups, names, infos;
      outcome := if found then Renamed else OldGroupMissing;
      if old(Coherent(speciesPhotoMap, birdNameMap)) {
        RenameKeepsCoherent(old(speciesPhotoMap), old(birdNameMap), oldName, newName);
      }
    }

    /** The species list `display_species_list` shows. */
    function SpeciesList(): (r: seq<string>)
      reads this
      requires Valid()
      ensures forall i, j :: 0 <= i < j < |r| ==> !StrLt(r[j], r[i])
      ensures multiset(r) == multiset(speciesPhotoMap.keys)
      ensures forall k :: k in r <==> k in speciesPhotoMap.items
    {
      SortedSpeciesCorrect(speciesPhotoMap);
      SortedSpecies(speciesPhotoMap)
    }
  }
}
