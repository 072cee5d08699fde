/**
 * The state of the file picker screen: the breadcrumb stack, the current
 * listing and the selected paths, and the user actions that change them.
 */
module Picker {
  import opened Wrappers
  import opened Models
  import opened JavaStrings
  import opened Sorting
  import opened FileComparator
  import opened Listing

  /** How an action ends: the screen stays, or it finishes cancelled or committed, or it throws. */
  datatype Outcome = Stayed | Cancelled | Committed(paths: seq<string>) | Crashed

  /** `ArrayList.indexOf`: the first index holding `x`. */
  function IndexOf<T(==)>(s: seq<T>, x: T): (i: nat)
    requires x in s
    ensures i < |s| && s[i] == x && x !in s[..i]
  {
    if s[0] == x then 0
    else
      var i := 1 + IndexOf(s[1..], x);
      assert s[..i] == [s[0]] + s[1..][..i - 1];
      i
  }

  /** `ArrayList.remove(Object)`: drops the first occurrence of `x`. */
  function RemoveFirst<T(==)>(s: seq<T>, x: T): seq<T>
    requires x in s
  {
    var i := IndexOf(s, x);
    s[..i] + s[i + 1..]
  }

  /** The multi-select toggle of a path. */
  function Toggle(selected: seq<string>, path: string): seq<string>
  {
    if path in selected then RemoveFirst(selected, path) else selected + [path]
  }

  ghost predicate NoDuplicates<T>(s: seq<T>)
  {
    forall i, j :: 0 <= i < j < |s| ==> s[i] != s[j]
  }

  /** On a selection without repeats, toggling flips the membership of `path`, leaves every other path as it was, and keeps the selection free of repeats. */
  lemma ToggleMembership(selected: seq<string>, path: string, q: string)
    requires NoDuplicates(selected)
    ensures NoDuplicates(Toggle(selected, path))
    ensures q in Toggle(selected, path) <==> if q == path then path !in selected else q in selected
  {
    if path in selected {
      var i := IndexOf(selected, path);
      var r := selected[..i] + selected[i + 1..];
      assert selected == selected[..i] + [path] + selected[i + 1..];
      forall a, b | 0 <= a < b < |r| ensures r[a] != r[b] {
        var a', b' := if a < i then a else a + 1, if b < i then b else b + 1;
        assert r[a] == selected[a'] && r[b] == selected[b'];
      }
    }
  }

  /** Toggling a path twice restores the membership of every path; when the path was absent, it restores the very list. */
  lemma ToggleTwice(selected: seq<string>, path: string, q: string)
    requires NoDuplicates(selected)
    ensures q in Toggle(Toggle(selected, path), path) <==> q in selected
    ensures path !in selected ==> Toggle(Toggle(selected, path), path) == selected
  {
    ToggleMembership(selected, path, q);
    ToggleMembership(Toggle(selected, path), path, q);
    if path !in selected {
      var t := selected + [path];
      assert IndexOf(t, path) == |selected|;
      assert t[..|selected|] == selected;
    }
  }

  /** The sorted listing of `children`: the filtered records, permuted, and in order whenever the comparator keeps its contract. */
  ghost predicate Listed(files: seq<DirectoryModel>, config: Config, children: seq<RawFile>, sort: SortSettings, env: Env)
  {
    && multiset(files) == multiset(Filtered(config, children))
    && (IsTotalPreorder(Comparator(sort, env)) ==> SortedBy(files, Comparator(sort, env)))
  }

  /** Sorting the filtered records yields the listing `Listed` describes. */
  lemma SortedIsListed(config: Config, children: seq<RawFile>, sort: SortSettings, env: Env)
    ensures Listed(SortBy(Filtered(config, children), Comparator(sort, env)), config, children, sort, env)
  {
    var cmp := Comparator(sort, env);
    if IsTotalPreorder(cmp) {
      SortBySorted(Filtered(config, children), cmp);
    }
  }

  lemma FilteredStep(config: Config, children: seq<RawFile>, i: nat)
    requires i < |children|
    ensures Filtered(config, children[..i + 1]) ==
      Filtered(config, children[..i]) + Repeat(ToModel(children[i]), CopiesAdded(config, children[i]))
  {
    assert children[..i + 1][..i] == children[..i];
  }

  class FilePicker {
    const config: Config
    /** The breadcrumb stack, root first. */
    var stack: seq<DirectoryModel>
    /** The listing of the current directory. */
    var files: seq<DirectoryModel>
    /** The selected paths. */
    var selected: seq<string>

    ghost predicate Valid()
      reads this
    {
      NoDuplicates(selected) && (!config.selectMultiple ==> |selected| <= 1)
    }

    constructor (config: Config)
      ensures this.config == config && stack == [] && files == [] && selected == []
      ensures Valid()
    {
      this.config := config;
      stack, files, selected := [], [], [];
    }

    /**
     * Lists `model`: `listing` is what `listFiles()` returns for it (None for
     * null), `sort` the stored preferences, `env` the comparator's outside calls.
     */
    method FetchDirectory(model: DirectoryModel, listing: Option<seq<RawFile>>, sort: SortSettings, env: Env)
      requires Valid()
      modifies this
      ensures Valid() && selected == []
      ensures listing.None? ==> files == [] && stack == old(stack)
      ensures listing.Some? ==> stack == old(stack) + [model] && Listed(files, config, listing.value, sort, env)
    {
      selected := [];
      files := [];
      if listing.Some? {
        var children := listing.value;
        var i := 0;
        while i < |children|
          invariant 0 <= i <= |children|
          invariant files == Filtered(config, children[..i])
          invariant selected == [] && stack == old(stack)
        {
          AppendChild(children[i]);
          FilteredStep(config, children, i);
          i := i + 1;
        }
        assert children[..i] == children;
        SortedIsListed(config, children, sort, env);
        files := SortBy(files, Comparator(sort, env));
        stack := stack + [model];
      }
    }

    /** One pass of the listing loop: appends the record of `file` as many times as the rules say. */
    method AppendChild(file: RawFile)
      modifies this`files
      ensures files == old(files) + Repeat(ToModel(file), CopiesAdded(config, file))
    {
      var directoryModel := ToModel(file);
      if config.showHidden || (!config.showHidden && !file.isHidden) {
        if file.isDirectory {
          files := files + [directoryModel];
        } else if !config.showOnlyDirectory {
          if config.filters.Some? {
            var extension := Extension(file.name);
            if extension.Some? {
              AppendMatches(directoryModel, Lower(extension.value), config.filters.value);
            }
          } else {
            files := files + [directoryModel];
          }
        }
      }
    }

    /** The nested filter loop: one append of `directoryModel` per filter found in `lowered`. */
    method AppendMatches(directoryModel: DirectoryModel, lowered: string, filters: seq<string>)
      modifies this`files
      ensures files == old(files) + Repeat(directoryModel, MatchCount(lowered, filters))
    {
      var j := 0;
      while j < |filters|
        invariant 0 <= j <= |filters|
        invariant files == old(files) + Repeat(directoryModel, MatchCount(lowered, filters[..j]))
      {
        assert filters[..j + 1][..j] == filters[..j];
        if Contains(lowered, filters[j]) {
          files := files + [directoryModel];
        }
        j := j + 1;
      }
      assert filters[..j] == filters;
    }

    /** A tap on a file: toggles its path in multi-select mode, replaces the selection otherwise. */
    method OnFileSelected(fileModel: DirectoryModel)
      requires Valid()
      modifies this`selected
      ensures Valid()
      ensures config.selectMultiple ==> selected == Toggle(old(selected), fileModel.path)
      ensures !config.selectMultiple ==> selected == [fileModel.path]
    {
      if config.selectMultiple {
        ToggleMembership(selected, fileModel.path, fileModel.path);
        if fileModel.path in selected {
          var i := IndexOf(selected, fileModel.path);
          selected := selected[..i] + selected[i + 1..];
        } else {
          selected := selected + [fileModel.path];
        }
      } else {
        selected := [fileModel.path];
      }
    }

    /**
     * A tap on the breadcrumb `model`: the stack is cut after its first
     * occurrence, that entry is popped and fetched again with `listing`.
     */
    method OnBreadcrumb(model: DirectoryModel, listing: Option<seq<RawFile>>, sort: SortSettings, env: Env)
      requires Valid() && model in stack
      modifies this
      ensures Valid() && selected == []
      ensures listing.Some? ==>
        stack == old(stack)[..IndexOf(old(stack), model) + 1] && Listed(files, config, listing.value, sort, env)
      ensures listing.None? ==> stack == old(stack)[..IndexOf(old(stack), model)] && files == []
    {
      var i := IndexOf(stack, model);
      stack := stack[..i + 1];
      var top := stack[|stack| - 1];
      stack := stack[..|stack| - 1];
      FetchDirectory(top, listing, sort, env);
    }

    /**
     * Back: with more than one breadcrumb, pops the current directory and its
     * parent and fetches the parent again with `listing`; otherwise cancels.
     */
    method OnBack(listing: Option<seq<RawFile>>, sort: SortSettings, env: Env) returns (o: Outcome)
      requires Valid()
      modifies this
      ensures Valid()
      ensures |old(stack)| <= 1 ==>
        o == Cancelled && stack == old(stack) && files == old(files) && selected == old(selected)
      ensures |old(stack)| > 1 && listing.Some? ==>
        o == Stayed && selected == [] && stack == old(stack)[..|old(stack)| - 1]
        && Listed(files, config, listing.value, sort, env)
      ensures |old(stack)| > 1 && listing.None? ==>
        o == Stayed && selected == [] && stack == old(stack)[..|old(stack)| - 2] && files == []
    {
      if |stack| > 1 {
        ghost var s0 := stack;
        stack := stack[..|stack| - 1];
        var model := stack[|stack| - 1];
        stack := stack[..|stack| - 1];
        assert stack == s0[..|s0| - 2] && model == s0[|s0| - 2];
        assert stack + [model] == s0[..|s0| - 1];
        FetchDirectory(model, listing, sort, env);
        o := Stayed;
      } else {
        o := Cancelled;
      }
    }

    /**
     * The select button: in directory-only mode the selection becomes the current
     * directory's path (and `get(-1)` throws on an empty stack); then the selection is returned.
     */
    method Commit() returns (o: Outcome)
      requires Valid()
      modifies this`selected
      ensures Valid()
      ensures !config.showOnlyDirectory ==> selected == old(selected) && o == Committed(selected)
      ensures config.showOnlyDirectory && stack != [] ==>
        selected == [stack[|stack| - 1].path] && o == Committed(selected)
      ensures config.showOnlyDirectory && stack == [] ==> selected == [] && o == Crashed
    {
      if config.showOnlyDirectory {
        selected := [];
        if stack == [] {
          return Crashed;
        }
        selected := selected + [stack[|stack| - 1].path];
      }
      o := Committed(selected);
    }
  }
}
