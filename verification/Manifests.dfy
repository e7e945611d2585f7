/** The manifest a repair leaves behind for its rollback: a file with its directories, mostly in the
    same tree that is being repaired. */
module Manifests {
  import opened Wrappers
  import opened FileTree
  import opened Access

  /** Where a manifest goes: below the root, or beside the tree, where only the outcome is known. */
  datatype Place = Inside(dir: Path, name: string, mode: nat) | Outside(ok: bool)

  function FileOf(place: Place): Path
    requires place.Inside?
  {
    place.dir + [place.name]
  }

  /** The first segment of its path: all that writing it can make is at or below. */
  function Area(place: Place): (area: Path)
    requires place.Inside?
    ensures |area| == 1 && AtOrAbove(area, FileOf(place))
  {
    FileOf(place)[..1]
  }

  function Write(t: Tree, place: Place, text: string): Outcome {
    match place
    case Outside(ok) => Outcome(ok, t)
    case Inside(dir, name, mode) =>
      var made := MakeDirs(t, dir, MODE_0755);
      if made.ok then SaveFile(made.tree, dir + [name], text, mode) else made
  }

  /** The same text can be read from it. */
  predicate Loads(t: Tree, place: Place, text: string) {
    place.Inside? ==>
      var seen := Stat(t, FileOf(place));
      seen.Found? && seen.node.File? && seen.node.content == text && Listable(seen.node.mode)
  }

  ghost predicate SameBesides(place: Place, a: Tree, b: Tree) {
    if place.Inside? then AgreeOutside(Area(place), a, b) else a == b
  }

  /** The path shares no more than the root with the manifest. */
  predicate Elsewhere(place: Place, p: Path) {
    place.Inside? ==> !AtOrAbove(Area(place), p)
  }

  lemma ManifestAgrees(t: Tree, place: Place, text: string)
    requires Closed(t)
    ensures var m := Write(t, place, text); Closed(m.tree) && SameBesides(place, t, m.tree)
  {
    if place.Inside? {
      var made := MakeDirs(t, place.dir, MODE_0755);
      MakeDirsSpec(t, place.dir, MODE_0755);
      SavedSpec(made.tree, FileOf(place), text, place.mode);
      forall q | AtOrAbove(q, place.dir) && q != [] ensures AtOrAbove(Area(place), q) {
        assert q <= place.dir <= FileOf(place);
      }
    }
  }

  /** What is there stays there, of its kind and mode. */
  lemma ManifestKeeps(t: Tree, place: Place, text: string)
    requires Closed(t)
    ensures var m := Write(t, place, text).tree;
            forall q :: q in t ==> q in m && m[q].mode == t[q].mode && (m[q].Dir? <==> t[q].Dir?)
  {
    if place.Inside? {
      var made := MakeDirs(t, place.dir, MODE_0755);
      MakeDirsSpec(t, place.dir, MODE_0755);
      SavedSpec(made.tree, FileOf(place), text, place.mode);
      StatSpec(made.tree, FileOf(place));
    }
  }

  lemma Written(t: Tree, place: Place, text: string)
    requires Closed(t) && place.Inside? && Write(t, place, text).ok
    ensures var m, file := Write(t, place, text).tree, FileOf(place);
            && Stat(m, file) == Found(m[file])
            && m[file] == File(text, if file in t then t[file].mode else place.mode)
            && (file in t ==> m == t[file := m[file]])
  {
    var made, file := MakeDirs(t, place.dir, MODE_0755), FileOf(place);
    assert Parent(file) == place.dir;
    MakeDirsSpec(t, place.dir, MODE_0755);
    StatSpec(made.tree, file);
    SavedSpec(made.tree, file, text, place.mode);
    StatSpec(Write(t, place, text).tree, file);
    ReachableChild(made.tree, file);
    forall q | Above(q, file) ensures CanSearch(Write(t, place, text).tree, q) { assert CanSearch(made.tree, q); }
    if file in t { assert Above(place.dir, file); AncestorIsDir(t, file, place.dir); }
  }

  /** What was written can be read back, unless an old file that its owner cannot read was used again. */
  lemma ManifestLoads(t: Tree, place: Place, text: string)
    requires Closed(t) && Write(t, place, text).ok && (place.Inside? ==> Listable(place.mode))
    ensures Loads(Write(t, place, text).tree, place, text)
       <==> (place.Inside? && FileOf(place) in t ==> Listable(t[FileOf(place)].mode))
  {
    if place.Inside? { Written(t, place, text); }
  }

  /** It stays readable whatever happens to paths elsewhere. */
  lemma LoadsOn(t: Tree, u: Tree, place: Place, text: string, top: Path)
    requires Elsewhere(place, top) && top != [] && AgreeOutside(top, t, u)
    ensures Loads(t, place, text) <==> Loads(u, place, text)
  {
    if place.Inside? {
      var file := FileOf(place);
      assert Area(place) == [file[0]] && top[0] != file[0];
      forall q | AtOrAbove(q, file) ensures !AtOrAbove(top, q) {}
      StatFromAgrees(t, u, file, 0);
    }
  }

  /** Exactly when a manifest leaves the rest of the tree outside an area alone. */
  lemma WhereItShows(t: Tree, place: Place, text: string, area: Path)
    requires Closed(t) && place.Inside? && Write(t, place, text).ok && |area| == 1
    ensures AgreeOutside(area, t, Write(t, place, text).tree)
       <==> area == Area(place) || FileAt(t, FileOf(place)) == Some(text)
  {
    ManifestAgrees(t, place, text);
    Written(t, place, text);
    var m, file := Write(t, place, text).tree, FileOf(place);
    if FileAt(t, file) == Some(text) {
      assert m == t;
    } else if area != Area(place) {
      assert !AtOrAbove(area, file) && file in m;
    }
  }
}
