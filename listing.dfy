/**
 * Which children of a listed directory end up in the listing, and how many
 * times each: the rules of the loop in `fetchDirectory`, as functions.
 */
module Listing {
  import opened Wrappers
  import opened Models
  import opened JavaStrings

  /** The record built for a child; the child count is kept only for a listable directory. */
  function ToModel(f: RawFile): DirectoryModel
  {
    DirectoryModel(f.isDirectory, f.path, f.name, f.lastModified,
                   if f.isDirectory && f.children.Some? then f.children.value else 0)
  }

  /**
   * `name.substring(name.lastIndexOf("."))`: the suffix from the last '.', dot
   * included; None when the name has no '.' and substring(-1) throws.
   */
  function Extension(name: string): (r: Option<string>)
    ensures r.None? <==> '.' !in name
    ensures r.Some? ==> |r.value| > 0 && r.value[0] == '.' && '.' !in r.value[1..]
    ensures r.Some? ==> |r.value| <= |name| && name == name[..|name| - |r.value|] + r.value
  {
    var k := LastIndexOf(name, '.');
    var r := Substring(name, k);
    assert r.Some? ==> forall c :: c in r.value[1..] ==> c != '.' by {
      if r.Some? {
        forall c | c in r.value[1..] ensures c != '.' {
          var j :| 0 <= j < |r.value[1..]| && r.value[1..][j] == c;
          assert name[k + 1 + j] == c;
        }
      }
    }
    r
  }

  /** The number of filters that occur in `ext` (one append per matching filter: the loop has no break). */
  function MatchCount(ext: string, filters: seq<string>): nat
  {
    if filters == [] then 0
    else MatchCount(ext, filters[..|filters| - 1]) + (if Contains(ext, filters[|filters| - 1]) then 1 else 0)
  }

  function MatchingIndices(ext: string, filters: seq<string>): set<int>
  {
    set i | 0 <= i < |filters| && Contains(ext, filters[i])
  }

  /** MatchCount counts the positions of the filter list whose filter is a substring of `ext`. */
  lemma {:induction false} MatchCountCountsMatchingFilters(ext: string, filters: seq<string>)
    ensures MatchCount(ext, filters) == |MatchingIndices(ext, filters)|
  {
    if filters != [] {
      var n := |filters| - 1;
      var prefix := filters[..n];
      MatchCountCountsMatchingFilters(ext, prefix);
      var before := MatchingIndices(ext, prefix);
      var after := MatchingIndices(ext, filters);
      if Contains(ext, filters[n]) {
        assert after == before + {n};
        assert n !in before;
      } else {
        assert after == before;
      }
    }
  }

  /** How many times `fetchDirectory` appends the record of child `f`. */
  function CopiesAdded(config: Config, f: RawFile): nat
  {
    if !(config.showHidden || (!config.showHidden && !f.isHidden)) then 0
    else if f.isDirectory then 1
    else if config.showOnlyDirectory then 0
    else if config.filters.None? then 1
    else match Extension(f.name)
      case None => 0
      case Some(ext) => MatchCount(Lower(ext), config.filters.value)
  }

  /** The listing rules, one clause each. */
  lemma CopiesAddedRules(config: Config, f: RawFile)
    ensures f.isHidden && !config.showHidden ==> CopiesAdded(config, f) == 0
    ensures (config.showHidden || !f.isHidden) && f.isDirectory ==> CopiesAdded(config, f) == 1
    ensures !f.isDirectory && config.showOnlyDirectory ==> CopiesAdded(config, f) == 0
    ensures (config.showHidden || !f.isHidden) && !f.isDirectory && !config.showOnlyDirectory && config.filters.None?
            ==> CopiesAdded(config, f) == 1
    ensures (config.showHidden || !f.isHidden) && !f.isDirectory && !config.showOnlyDirectory && config.filters.Some?
            ==> CopiesAdded(config, f) ==
                if '.' !in f.name then 0
                else |MatchingIndices(Lower(f.name[LastIndexOf(f.name, '.')..]), config.filters.value)|
  {
    if (config.showHidden || !f.isHidden) && !f.isDirectory && !config.showOnlyDirectory && config.filters.Some?
       && '.' in f.name {
      MatchCountCountsMatchingFilters(Lower(f.name[LastIndexOf(f.name, '.')..]), config.filters.value);
    }
  }

  function Repeat(m: DirectoryModel, n: nat): (r: seq<DirectoryModel>)
    ensures |r| == n && forall i :: 0 <= i < n ==> r[i] == m
  {
    if n == 0 then [] else Repeat(m, n - 1) + [m]
  }

  /** Each child's record, `copies` times, in the order listed. */
  function Expand(children: seq<RawFile>, copies: RawFile -> nat): seq<DirectoryModel>
  {
    if children == [] then []
    else
      var last := children[|children| - 1];
      Expand(children[..|children| - 1], copies) + Repeat(ToModel(last), copies(last))
  }

  /** The listing before sorting: each child's record, CopiesAdded times, in the order listed. */
  function Filtered(config: Config, children: seq<RawFile>): seq<DirectoryModel>
  {
    Expand(children, f => CopiesAdded(config, f))
  }

  /** Child `i` gets at least one copy, and its record is `m`. */
  ghost predicate CopiedFrom(children: seq<RawFile>, copies: RawFile -> nat, m: DirectoryModel, i: int)
  {
    0 <= i < |children| && copies(children[i]) > 0 && ToModel(children[i]) == m
  }

  lemma RepeatMembership(m: DirectoryModel, n: nat, x: DirectoryModel)
    ensures x in Repeat(m, n) <==> n > 0 && x == m
  {
    if n > 0 {
      assert Repeat(m, n)[0] == m;
    }
  }

  lemma {:induction false} ExpandMembership(children: seq<RawFile>, copies: RawFile -> nat, m: DirectoryModel)
    ensures m in Expand(children, copies) <==> exists i :: CopiedFrom(children, copies, m, i)
  {
    if children != [] {
      var n := |children| - 1;
      var prefix := children[..n];
      ExpandMembership(prefix, copies, m);
      RepeatMembership(ToModel(children[n]), copies(children[n]), m);
      assert Expand(children, copies) == Expand(prefix, copies) + Repeat(ToModel(children[n]), copies(children[n]));
      if exists i :: CopiedFrom(prefix, copies, m, i) {
        var i :| CopiedFrom(prefix, copies, m, i);
        assert CopiedFrom(children, copies, m, i);
      }
      if m in Repeat(ToModel(children[n]), copies(children[n])) {
        assert CopiedFrom(children, copies, m, n);
      }
      if exists i :: CopiedFrom(children, copies, m, i) {
        var i :| CopiedFrom(children, copies, m, i);
        if i < n {
          assert CopiedFrom(prefix, copies, m, i);
        } else {
          assert m in Repeat(ToModel(children[n]), copies(children[n]));
        }
      }
    }
  }

  /** A record is listed exactly when some child it was built from is appended at least once. */
  lemma FilteredMembership(config: Config, children: seq<RawFile>, m: DirectoryModel)
    ensures m in Filtered(config, children) <==>
      exists i :: 0 <= i < |children| && CopiesAdded(config, children[i]) > 0 && ToModel(children[i]) == m
  {
    var copies := f => CopiesAdded(config, f);
    ExpandMembership(children, copies, m);
    if m in Filtered(config, children) {
      var i :| CopiedFrom(children, copies, m, i);
      assert CopiesAdded(config, children[i]) > 0;
    }
    if exists i :: 0 <= i < |children| && CopiesAdded(config, children[i]) > 0 && ToModel(children[i]) == m {
      var i :| 0 <= i < |children| && CopiesAdded(config, children[i]) > 0 && ToModel(children[i]) == m;
      assert CopiedFrom(children, copies, m, i);
    }
  }

  /**
   * Consequences for the whole listing: in directory-only mode it holds only
   * directories, and without showHidden it holds no record of a hidden child.
   */
  lemma FilteredListsOnlyVisible(config: Config, children: seq<RawFile>, m: DirectoryModel)
    requires m in Filtered(config, children)
    ensures config.showOnlyDirectory ==> m.isDirectory
    ensures !config.showHidden ==> exists i :: 0 <= i < |children| && !children[i].isHidden && ToModel(children[i]) == m
  {
    FilteredMembership(config, children, m);
  }

  lemma PhotoJpgMatches()
    ensures Extension("photo.JPG") == Some(".JPG")
    ensures Lower(".JPG") == ".jpg" && Contains(".jpg", ".jpg")
  {
    var name := "photo.JPG";
    assert name[8] != '.' && name[7] != '.' && name[6] != '.' && name[5] == '.';
    assert name[..8][..7][..6] == name[..6];
    assert LastIndexOf(name, '.') == 5;
  }

  lemma ArchiveZipDoesNotMatch()
    ensures Extension("archive.zip") == Some(".zip")
    ensures Lower(".zip") == ".zip" && !Contains(".zip", ".jpg")
  {
    var name := "archive.zip";
    assert name[10] != '.' && name[9] != '.' && name[8] != '.' && name[7] == '.';
    assert name[..10][..9][..8] == name[..8];
    assert LastIndexOf(name, '.') == 7;
  }

  /** With the extension filter [".jpg"], "photo.JPG" is listed once. */
  lemma JpgFilterKeepsUpperCaseJpg(showHidden: bool, selectMultiple: bool)
    ensures CopiesAdded(Config(showHidden, false, selectMultiple, Some([".jpg"])),
                        RawFile(false, false, "photo.JPG", "/p/photo.JPG", 0, None)) == 1
  {
    PhotoJpgMatches();
    assert [".jpg"][..0] == [];
  }

  /** With the extension filter [".jpg"], "readme" (no '.') and "archive.zip" are not listed. */
  lemma JpgFilterDropsOthers(showHidden: bool, selectMultiple: bool)
    ensures CopiesAdded(Config(showHidden, false, selectMultiple, Some([".jpg"])),
                        RawFile(false, false, "readme", "/p/readme", 0, None)) == 0
    ensures CopiesAdded(Config(showHidden, false, selectMultiple, Some([".jpg"])),
                        RawFile(false, false, "archive.zip", "/p/archive.zip", 0, None)) == 0
  {
    assert '.' !in "readme";
    ArchiveZipDoesNotMatch();
    assert [".jpg"][..0] == [];
  }
}
