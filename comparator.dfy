/**
 * `CustomFileComparator.compare`: directories first, directories by lower-cased
 * name, files by the configured sort mode and direction.
 */
module FileComparator {
  import opened Wrappers
  import opened Models
  import opened JavaStrings
  import opened Sorting

  const SORT_ALPHABETICALLY: int := 0
  const SORT_DATE: int := 1
  const SORT_EXIF: int := 2

  /**
   * The two stored preferences: the sort mode (any value other than SORT_DATE
   * and SORT_EXIF sorts by name) and the descending flag.
   */
  datatype SortSettings = SortSettings(sortBy: int, descending: bool)

  /**
   * Code the comparator calls but that is not part of this model:
   * `natural` is `NaturalOrderComparator.s_compare`; `exif` reads the EXIF tags of
   * the file at a path (None: the read throws); `parseDate` is
   * `Utils.getDateFromExifAttribute` followed by `getTime` (None: it throws or yields null).
   */
  datatype Env = Env(
    natural: (string, string) -> int,
    exif: string -> Option<ExifTags>,
    parseDate: string -> Option<int>)

  /** `Long.compare`. */
  function LongCompare(x: int, y: int): (r: int)
    ensures r == -1 <==> x < y
    ensures r == 0 <==> x == y
    ensures r == 1 <==> x > y
  {
    if x < y then -1 else if x == y then 0 else 1
  }

  /** `TextUtils.isEmpty`: null or the empty string. */
  predicate IsEmpty(s: Option<string>)
  {
    s.None? || s.value == ""
  }

  /**
   * The EXIF date attribute of one file: DateTimeOriginal, else DateTimeDigitized,
   * else DateTime. None when all three are empty.
   */
  function ExifDateAttr(t: ExifTags): (r: Option<string>)
    ensures r.Some? ==> r.value != ""
    ensures r.None? <==> IsEmpty(t.dateTimeOriginal) && IsEmpty(t.dateTimeDigitized) && IsEmpty(t.dateTime)
    ensures !IsEmpty(t.dateTimeOriginal) ==> r == t.dateTimeOriginal
    ensures IsEmpty(t.dateTimeOriginal) && !IsEmpty(t.dateTimeDigitized) ==> r == t.dateTimeDigitized
    ensures IsEmpty(t.dateTimeOriginal) && IsEmpty(t.dateTimeDigitized) ==> r == if IsEmpty(t.dateTime) then None else t.dateTime
  {
    if !IsEmpty(t.dateTimeOriginal) then t.dateTimeOriginal
    else if !IsEmpty(t.dateTimeDigitized) then t.dateTimeDigitized
    else if !IsEmpty(t.dateTime) then t.dateTime
    else None
  }

  /** The final fallback: natural order of the names, reversed when descending. */
  function NameOrder(descending: bool, env: Env, o1: DirectoryModel, o2: DirectoryModel): int
  {
    if descending then env.natural(o2.name, o1.name) else env.natural(o1.name, o2.name)
  }

  /**
   * The EXIF branch. None means the comparison falls through to NameOrder: a read
   * or parse threw, or neither file has a date.
   */
  function ExifOrder(descending: bool, env: Env, o1: DirectoryModel, o2: DirectoryModel): Option<int>
  {
    match (env.exif(o1.path), env.exif(o2.path))
    case (Some(t1), Some(t2)) =>
      var d1, d2 := ExifDateAttr(t1), ExifDateAttr(t2);
      if d1.Some? && d2.Some? then
        match (env.parseDate(d1.value), env.parseDate(d2.value))
        case (Some(x1), Some(x2)) =>
          Some(if descending then LongCompare(x2, x1) else LongCompare(x1, x2))
        case _ => None
      else if d1.Some? then Some(if descending then 1 else -1)
      else if d2.Some? then Some(if descending then -1 else 1)
      else None
    case _ => None
  }

  /** The comparison of two files, by the configured mode. */
  function FileOrder(s: SortSettings, env: Env, o1: DirectoryModel, o2: DirectoryModel): int
  {
    if s.sortBy == SORT_DATE then
      if s.descending then LongCompare(o2.lastModified, o1.lastModified)
      else LongCompare(o1.lastModified, o2.lastModified)
    else if s.sortBy == SORT_EXIF && ExifOrder(s.descending, env, o1, o2).Some? then
      ExifOrder(s.descending, env, o1, o2).value
    else
      NameOrder(s.descending, env, o1, o2)
  }

  /** The comparison of two directories: lower-cased names, never reversed. */
  function DirectoryOrder(o1: DirectoryModel, o2: DirectoryModel): int
  {
    CompareTo(Lower(o1.name), Lower(o2.name))
  }

  function Compare(s: SortSettings, env: Env, o1: DirectoryModel, o2: DirectoryModel): int
  {
    if o1.isDirectory && o2.isDirectory then DirectoryOrder(o1, o2)
    else if o1.isDirectory && !o2.isDirectory then -1
    else if !o1.isDirectory && o2.isDirectory then 1
    else FileOrder(s, env, o1, o2)
  }

  /** The comparator object built for one sort. */
  function Comparator(s: SortSettings, env: Env): (DirectoryModel, DirectoryModel) -> int
  {
    (o1, o2) => Compare(s, env, o1, o2)
  }

  // ---------------------------------------------------------------------------
  // Properties of the ordering

  /** A directory precedes a file, whatever the mode and direction. */
  lemma DirectoriesFirst(s: SortSettings, env: Env, d: DirectoryModel, f: DirectoryModel)
    requires d.isDirectory && !f.isDirectory
    ensures Compare(s, env, d, f) == -1 && Compare(s, env, f, d) == 1
  {
  }

  /**
   * Two directories compare by the lower-cased names' compareTo, ascending even
   * when descending is set; the result is 0 exactly when the lower-cased names agree,
   * and swapping the arguments negates it.
   */
  lemma DirectoriesIgnoreDescending(s: SortSettings, env: Env, a: DirectoryModel, b: DirectoryModel)
    requires a.isDirectory && b.isDirectory
    ensures Compare(s, env, a, b) == Compare(s.(descending := !s.descending), env, a, b)
    ensures Compare(s, env, a, b) == CompareTo(Lower(a.name), Lower(b.name))
    ensures Compare(s, env, a, b) == -Compare(s, env, b, a)
    ensures Compare(s, env, a, b) == 0 <==> Lower(a.name) == Lower(b.name)
  {
    CompareToAntisymmetric(Lower(a.name), Lower(b.name));
    CompareToZero(Lower(a.name), Lower(b.name));
  }

  /** For two files, in every mode, descending order is ascending order with the arguments swapped. */
  lemma DescendingSwapsFiles(s: SortSettings, env: Env, a: DirectoryModel, b: DirectoryModel)
    requires !a.isDirectory && !b.isDirectory
    ensures Compare(s.(descending := true), env, a, b) == Compare(s.(descending := false), env, b, a)
  {
  }

  /** In date mode two files compare by modification time, and swapping them negates the result. */
  lemma DateModeAntisymmetric(s: SortSettings, env: Env, a: DirectoryModel, b: DirectoryModel)
    requires s.sortBy == SORT_DATE && !a.isDirectory && !b.isDirectory
    ensures Compare(s, env, a, b) == -Compare(s, env, b, a)
    ensures Compare(s, env, a, b) < 0 <==>
      (if s.descending then b.lastModified < a.lastModified else a.lastModified < b.lastModified)
  {
  }

  /** EXIF mode: when only one of two readable files has a date, that file ranks first when ascending and last when descending. */
  lemma ExifDatedFirst(s: SortSettings, env: Env, a: DirectoryModel, b: DirectoryModel)
    requires s.sortBy == SORT_EXIF && !a.isDirectory && !b.isDirectory
    requires env.exif(a.path).Some? && env.exif(b.path).Some?
    requires ExifDateAttr(env.exif(a.path).value).Some? && ExifDateAttr(env.exif(b.path).value).None?
    ensures Compare(s, env, a, b) == (if s.descending then 1 else -1)
    ensures Compare(s, env, b, a) == (if s.descending then -1 else 1)
  {
  }

  /** EXIF mode: when both files have dates that parse, they compare by those dates. */
  lemma ExifBothDated(s: SortSettings, env: Env, a: DirectoryModel, b: DirectoryModel, ta: int, tb: int)
    requires s.sortBy == SORT_EXIF && !a.isDirectory && !b.isDirectory
    requires env.exif(a.path).Some? && env.exif(b.path).Some?
    requires ExifDateAttr(env.exif(a.path).value).Some? && ExifDateAttr(env.exif(b.path).value).Some?
    requires env.parseDate(ExifDateAttr(env.exif(a.path).value).value) == Some(ta)
    requires env.parseDate(ExifDateAttr(env.exif(b.path).value).value) == Some(tb)
    ensures Compare(s, env, a, b) < 0 <==> (if s.descending then tb < ta else ta < tb)
    ensures Compare(s, env, a, b) == 0 <==> ta == tb
  {
  }

  /** EXIF mode: a failed read, a failed parse, or two undated files fall back to the natural name order. */
  lemma ExifFallsBackToNames(s: SortSettings, env: Env, a: DirectoryModel, b: DirectoryModel)
    requires s.sortBy == SORT_EXIF && !a.isDirectory && !b.isDirectory
    requires || env.exif(a.path).None? || env.exif(b.path).None?
             || (var da, db := ExifDateAttr(env.exif(a.path).value), ExifDateAttr(env.exif(b.path).value);
                 || (da.None? && db.None?)
                 || (da.Some? && db.Some? && (env.parseDate(da.value).None? || env.parseDate(db.value).None?)))
    ensures Compare(s, env, a, b) ==
      if s.descending then env.natural(b.name, a.name) else env.natural(a.name, b.name)
  {
  }

  // ---------------------------------------------------------------------------
  // When the comparator keeps the Java Comparator contract

  /** Every EXIF read succeeds, and the date attribute of every file that has one parses. */
  ghost predicate ExifReliable(env: Env)
  {
    forall p :: env.exif(p).Some? &&
      (ExifDateAttr(env.exif(p).value).Some? ==> env.parseDate(ExifDateAttr(env.exif(p).value).value).Some?)
  }

  /** The date a file sorts by in EXIF mode on a reliable `env`, or None when it has none. */
  function ExifDate(env: Env, o: DirectoryModel): Option<int>
    requires ExifReliable(env)
  {
    var d := ExifDateAttr(env.exif(o.path).value);
    if d.Some? then env.parseDate(d.value) else None
  }

  /** On a reliable `env`, ascending EXIF order is: dated files by date, then undated files by name. */
  lemma ExifOrderByDate(env: Env, a: DirectoryModel, b: DirectoryModel)
    requires ExifReliable(env)
    ensures ExifOrder(false, env, a, b) ==
      match (ExifDate(env, a), ExifDate(env, b))
      case (Some(x), Some(y)) => Some(LongCompare(x, y))
      case (Some(_), None) => Some(-1)
      case (None, Some(_)) => Some(1)
      case (None, None) => None
  {
    var da, db := ExifDateAttr(env.exif(a.path).value), ExifDateAttr(env.exif(b.path).value);
    if da.Some? {
      assert env.parseDate(da.value).Some?;
    }
    if db.Some? {
      assert env.parseDate(db.value).Some?;
    }
  }

  lemma ExifTransitiveAt(env: Env, a: DirectoryModel, b: DirectoryModel, c: DirectoryModel)
    requires ExifReliable(env) && IsTotalPreorder(env.natural)
    requires FileOrder(SortSettings(SORT_EXIF, false), env, a, b) <= 0
    requires FileOrder(SortSettings(SORT_EXIF, false), env, b, c) <= 0
    ensures FileOrder(SortSettings(SORT_EXIF, false), env, a, c) <= 0
  {
    ExifOrderByDate(env, a, b);
    ExifOrderByDate(env, b, c);
    ExifOrderByDate(env, a, c);
    if ExifDate(env, a).None? && ExifDate(env, b).None? && ExifDate(env, c).None? {
      assert env.natural(a.name, b.name) <= 0 && env.natural(b.name, c.name) <= 0;
    }
  }

  lemma ExifAntisymmetricAt(env: Env, a: DirectoryModel, b: DirectoryModel)
    requires ExifReliable(env) && IsTotalPreorder(env.natural)
    ensures Sign(FileOrder(SortSettings(SORT_EXIF, false), env, a, b)) ==
            -Sign(FileOrder(SortSettings(SORT_EXIF, false), env, b, a))
  {
    ExifOrderByDate(env, a, b);
    ExifOrderByDate(env, b, a);
    assert Sign(env.natural(a.name, b.name)) == -Sign(env.natural(b.name, a.name));
  }

  /** What each mode needs for FileOrder to keep the contract. */
  ghost predicate FileOrderConditions(s: SortSettings, env: Env)
  {
    || s.sortBy == SORT_DATE
    || (s.sortBy != SORT_EXIF && IsTotalPreorder(env.natural))
    || (s.sortBy == SORT_EXIF && IsTotalPreorder(env.natural) && ExifReliable(env))
  }

  lemma FileOrderAscendingPreorder(s: SortSettings, env: Env)
    requires FileOrderConditions(s, env) && !s.descending
    ensures IsTotalPreorder((a, b) => FileOrder(s, env, a, b))
  {
    var f := (a, b) => FileOrder(s, env, a, b);
    if s.sortBy == SORT_EXIF {
      forall a, b ensures Sign(f(a, b)) == -Sign(f(b, a)) {
        ExifAntisymmetricAt(env, a, b);
      }
      forall a, b, c | f(a, b) <= 0 && f(b, c) <= 0 ensures f(a, c) <= 0 {
        ExifTransitiveAt(env, a, b, c);
      }
    } else if s.sortBy != SORT_DATE {
      forall a, b ensures Sign(f(a, b)) == -Sign(f(b, a)) {
        assert f(a, b) == env.natural(a.name, b.name);
      }
      forall a, b, c | f(a, b) <= 0 && f(b, c) <= 0 ensures f(a, c) <= 0 {
        assert env.natural(a.name, b.name) <= 0 && env.natural(b.name, c.name) <= 0;
      }
    }
  }

  /** FileOrder keeps the Java Comparator contract in every mode whose conditions hold, in both directions. */
  lemma FileOrderPreorder(s: SortSettings, env: Env)
    requires FileOrderConditions(s, env)
    ensures IsTotalPreorder((a, b) => FileOrder(s, env, a, b))
  {
    var asc := s.(descending := false);
    FileOrderAscendingPreorder(asc, env);
    var g := (a, b) => FileOrder(asc, env, a, b);
    var f := (a, b) => FileOrder(s, env, a, b);
    if s.descending {
      forall a, b ensures f(a, b) == g(b, a) { }
      forall a, b ensures Sign(f(a, b)) == -Sign(f(b, a)) {
        assert Sign(g(b, a)) == -Sign(g(a, b));
      }
      forall a, b, c | f(a, b) <= 0 && f(b, c) <= 0 ensures f(a, c) <= 0 {
        assert g(c, b) <= 0 && g(b, a) <= 0;
      }
    }
  }

  /**
   * The whole comparator keeps the Java Comparator contract when its file
   * ordering does: in date mode always, in name mode when the natural order does,
   * in EXIF mode when in addition every EXIF read and date parse succeeds.
   */
  lemma {:induction false} CompareIsTotalPreorder(s: SortSettings, env: Env)
    requires FileOrderConditions(s, env)
    ensures IsTotalPreorder(Comparator(s, env))
  {
    FileOrderPreorder(s, env);
    var cmp := Comparator(s, env);
    var f := (a, b) => FileOrder(s, env, a, b);
    forall a, b ensures Sign(cmp(a, b)) == -Sign(cmp(b, a)) {
      if a.isDirectory && b.isDirectory {
        CompareToAntisymmetric(Lower(a.name), Lower(b.name));
      } else if !a.isDirectory && !b.isDirectory {
        assert cmp(a, b) == f(a, b) && cmp(b, a) == f(b, a);
      }
    }
    forall a, b, c | cmp(a, b) <= 0 && cmp(b, c) <= 0 ensures cmp(a, c) <= 0 {
      if a.isDirectory && b.isDirectory && c.isDirectory {
        CompareToTransitive(Lower(a.name), Lower(b.name), Lower(c.name));
      } else if !a.isDirectory && !b.isDirectory && !c.isDirectory {
        assert f(a, b) <= 0 && f(b, c) <= 0;
      }
    }
  }

  /** Java's compareTo keeps the comparator contract. */
  lemma CompareToIsTotalPreorder()
    ensures IsTotalPreorder((x: string, y: string) => CompareTo(x, y))
  {
    forall x: string, y: string ensures Sign(CompareTo(x, y)) == -Sign(CompareTo(y, x)) {
      CompareToAntisymmetric(x, y);
    }
    forall x: string, y: string, z: string | CompareTo(x, y) <= 0 && CompareTo(y, z) <= 0
      ensures CompareTo(x, z) <= 0
    {
      CompareToTransitive(x, y, z);
    }
  }

  /** Two files whose EXIF dates are 1 and 2, one file whose EXIF read throws, names by compareTo. */
  function OneUnreadableEnv(): Env
  {
    Env(
      (x: string, y: string) => CompareTo(x, y),
      (p: string) => if p == "c" then None else Some(ExifTags(Some(if p == "b1" then "1" else "2"), None, None)),
      (d: string) => if d == "1" then Some(1) else if d == "2" then Some(2) else None)
  }

  lemma OneUnreadableCycle()
    ensures !Transitive(Comparator(SortSettings(SORT_EXIF, false), OneUnreadableEnv()))
  {
    var env := OneUnreadableEnv();
    var cmp := Comparator(SortSettings(SORT_EXIF, false), env);
    var b1 := DirectoryModel(false, "b1", "z", 0, 0);
    var b2 := DirectoryModel(false, "b2", "a", 0, 0);
    var c := DirectoryModel(false, "c", "m", 0, 0);
    assert "b1" != "c" && "b2" != "c" && "b2" != "b1";
    assert cmp(b2, c) == CompareTo("a", "m") < 0;
    assert cmp(c, b1) == CompareTo("m", "z") < 0;
    assert cmp(b2, b1) == 1;
  }

  /**
   * In EXIF mode the contract fails once a single EXIF read throws, even with a
   * well-behaved natural order: two dated files and one unreadable file can form a cycle.
   */
  lemma ExifReadFailureBreaksTransitivity()
    ensures exists env: Env :: IsTotalPreorder(env.natural) && !IsTotalPreorder(Comparator(SortSettings(SORT_EXIF, false), env))
  {
    CompareToIsTotalPreorder();
    OneUnreadableCycle();
    var env := OneUnreadableEnv();
    assert env.natural == (x: string, y: string) => CompareTo(x, y);
  }
}
