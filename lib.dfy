/**
 * Build definitions: which source files make up a target, how the target
 * text is assembled, when a change triggers a rebuild, and the error budget
 * of the watcher (i3configger/lib.py).
 *
 * The file system is given as directory listings: each listed directory
 * maps to its entries in `iterdir` order, each entry with its path, whether
 * it is a regular file, and the text a file holds. The clock is an integer
 * number of milliseconds.
 */
module Lib {
  import opened Wrappers
  import opened Text
  import opened Seqs
  import opened Ordering

  /** `BuildDef.BUILD_DELAY`, 0.1 seconds, in milliseconds. */
  const BUILD_DELAY := 100
  /** The prefix of the ini sections that are build definitions. */
  const MARK := "builddef:"

  /** A path, as the list of its parts. */
  type Path = seq<string>

  datatype Error =
    | NoThemeContent(theme: string)  // BuildDefError raised by get_theme
    | FilesAndExcludes               // BuildDefError raised by check_sanity
    | NoSuchDirectory(path: Path)    // FileNotFoundError from iterdir
    | GivingUp(errors: int)          // RuntimeError raised by watch_guarded

  /** The last part of a path, "" for a path without parts. */
  function Name(p: Path): string {
    if p == [] then "" else p[|p| - 1]
  }

  /** `str(path)`: the parts joined with slashes, the root part standing for itself. */
  function PathText(p: Path): string {
    if p != [] && p[0] == "/" then "/" + Join(p[1..], "/") else Join(p, "/")
  }

  /** A directory entry; `text` is what a regular file holds. */
  datatype Entry = Entry(path: Path, isFile: bool, text: string)

  function PathOf(e: Entry): Path {
    e.path
  }

  /** The directory listings of the file system. */
  type Listings = map<Path, seq<Entry>>

  /**
   * A build definition. `lastBuild` and `lastFilename` are set to nothing
   * when it is made and are never updated afterwards.
   */
  datatype BuildDef = BuildDef(
    name: string, target: Path, sources: seq<Path>, addheader: bool, addinfo: bool,
    suffix: string, themes: seq<Path>, excludes: seq<string>, files: seq<string>,
    theme: Option<string>, lastBuild: Option<int>, lastFilename: Option<Path>)
  {
    /** The directories watched for changes: the themes, then the sources. */
    function WatchPaths(): seq<Path> {
      themes + sources
    }

    /** `if self.theme`: a theme is set and is not empty. */
    predicate HasTheme() {
      theme.Some? && theme.value != ""
    }
  }

  // ---------------------------------------------------------------- prep

  /** The value of an ini option as `prep` receives it: one string or a list. */
  datatype Incoming = Single(text: string) | Several(items: seq<string>)

  /** The items `prep` iterates over; an empty string or list gives none. */
  function Items(incoming: Incoming): seq<string> {
    match incoming
    case Single(t) => if t == "" then [] else [t]
    case Several(xs) => xs
  }

  predicate NonEmpty(s: string) {
    s != ""
  }

  /** What one item contributes: its non-empty lines when it has a newline, else itself. */
  function PrepItem(item: string): seq<string> {
    if '\n' in item then Filter(SplitBy(item, IsNewline), NonEmpty) else [item]
  }

  /** What `prep(incoming, asPaths=False)` returns for the given items. */
  function PrepItems(items: seq<string>): seq<string> {
    if items == [] then []
    else PrepItems(items[..|items| - 1]) + PrepItem(items[|items| - 1])
  }

  /** `prep` with `asPaths=False`. */
  method Prep(incoming: Incoming) returns (r: seq<string>)
    ensures r == PrepItems(Items(incoming))
  {
    if incoming == Single("") || incoming == Several([]) {
      return [];
    }
    var items := match incoming case Single(t) => [t] case Several(xs) => xs;
    r := [];
    for i := 0 to |items|
      invariant r == PrepItems(items[..i])
    {
      assert items[..i + 1][..i] == items[..i];
      var item := items[i];
      if '\n' in item {
        r := r + Filter(SplitBy(item, IsNewline), NonEmpty);
      } else {
        r := r + [item];
      }
    }
    assert items[..|items|] == items;
  }

  /** No item `prep` returns holds a newline. */
  lemma {:induction false} PrepHasNoNewlines(items: seq<string>)
    ensures forall k :: 0 <= k < |PrepItems(items)| ==> '\n' !in PrepItems(items)[k]
  {
    if items != [] {
      var init, item := items[..|items| - 1], items[|items| - 1];
      PrepHasNoNewlines(init);
      var head := PrepItems(init);
      if '\n' in item {
        SplitByNoneIn(item, IsNewline);
        var pieces := SplitBy(item, IsNewline);
        FilterKeepsExactly(pieces, NonEmpty);
        forall x | x in Filter(pieces, NonEmpty) ensures '\n' !in x {
          var k :| 0 <= k < |pieces| && pieces[k] == x;
          assert NoneIn(pieces[k], IsNewline);
        }
      }
      var r := PrepItems(items);
      forall k | 0 <= k < |r| ensures '\n' !in r[k] {
        if k >= |head| {
          assert r[k] in PrepItem(item);
        }
      }
    }
  }

  /** Items without a newline pass through `prep` unchanged. */
  lemma {:induction false} PrepKeepsPlainItems(items: seq<string>)
    requires forall k :: 0 <= k < |items| ==> '\n' !in items[k]
    ensures PrepItems(items) == items
  {
    if items != [] {
      PrepKeepsPlainItems(items[..|items| - 1]);
      assert items == items[..|items| - 1] + [items[|items| - 1]];
    }
  }

  /**
   * An item with a newline is cut at every newline and only the empty
   * pieces are dropped: each piece it contributes is a non-empty line.
   */
  lemma PrepItemPieces(item: string)
    requires '\n' in item
    ensures forall k :: 0 <= k < |PrepItem(item)| ==> PrepItem(item)[k] != "" && '\n' !in PrepItem(item)[k]
  {
    var pieces := SplitBy(item, IsNewline);
    SplitByNoneIn(item, IsNewline);
    FilterKeepsExactly(pieces, NonEmpty);
    forall k | 0 <= k < |PrepItem(item)| ensures '\n' !in PrepItem(item)[k] {
      var x := PrepItem(item)[k];
      assert x in pieces;
      var j :| 0 <= j < |pieces| && pieces[j] == x;
      assert NoneIn(pieces[j], IsNewline);
    }
  }

  /** An item without empty lines is its pieces joined by newlines: the cuts fall exactly at its newlines. */
  lemma PrepItemRejoins(item: string)
    requires NoEmptyLines(item)
    ensures Join(PrepItem(item), "\n") == item
  {
    if '\n' in item {
      var pieces := SplitBy(item, IsNewline);
      SplitLinesNonEmpty(item);
      FilterKeepsAll(pieces, NonEmpty);
      JoinSplitLines(item);
    }
  }

  /** Joining drops empty pieces anyway. */
  lemma {:induction false} JoinDropsEmpty(xs: seq<string>)
    ensures Join(Filter(xs, NonEmpty), "") == Join(xs, "")
  {
    if xs != [] {
      var init, x := xs[..|xs| - 1], xs[|xs| - 1];
      JoinDropsEmpty(init);
      assert xs == init + [x];
      JoinAppend(init, [x]);
      if x != "" {
        JoinAppend(Filter(init, NonEmpty), [x]);
      }
    }
  }

  function DropNewlines(s: string): string {
    Without(s, IsNewline)
  }

  /** One item contributes its characters but the newlines. */
  lemma PrepItemKeepsText(item: string)
    ensures Join(PrepItem(item), "") == DropNewlines(item)
  {
    if '\n' in item {
      JoinDropsEmpty(SplitBy(item, IsNewline));
      ConcatSplitBy(item, IsNewline);
    } else {
      WithoutNoneIn(item, IsNewline);
    }
  }

  /** `prep` keeps every character of its items but the newlines, in order. */
  lemma {:induction false} PrepKeepsText(items: seq<string>)
    ensures Join(PrepItems(items), "") == Join(Map(items, DropNewlines), "")
  {
    if items != [] {
      var init, item := items[..|items| - 1], items[|items| - 1];
      PrepKeepsText(init);
      PrepItemKeepsText(item);
      JoinAppend(PrepItems(init), PrepItem(item));
      assert PrepItems(items) == PrepItems(init) + PrepItem(item);
      MappedTextSnoc(items);
    }
  }

  /** The dropped-newline text of the items grows by that of the last item. */
  lemma MappedTextSnoc(items: seq<string>)
    requires items != []
    ensures var init, item := items[..|items| - 1], items[|items| - 1];
      Join(Map(items, DropNewlines), "") == Join(Map(init, DropNewlines), "") + DropNewlines(item)
  {
    var init, item := items[..|items| - 1], items[|items| - 1];
    assert items == init + [item];
    MapSnoc(init, item, DropNewlines);
    JoinAppend(Map(init, DropNewlines), [DropNewlines(item)]);
  }

  // ------------------------------------------------- build definitions

  /** The options of one build section, with path values already expanded. */
  datatype Settings = Settings(
    target: Path, sources: seq<Path>, addheader: bool, addinfo: bool, suffix: string,
    themes: seq<Path>, excludes: Option<Incoming>, files: Option<Incoming>, theme: Option<string>)

  datatype Section = Section(title: string, settings: Settings)

  /** An optional list option: the fallback is the empty list. */
  function OrNone(option: Option<Incoming>): Incoming {
    if option.Some? then option.value else Several([])
  }

  /** `BuildDef.__init__`: the name is what follows the last mark in the section title. */
  function NewBuildDef(section: Section): BuildDef {
    var s := section.settings;
    BuildDef(LastPiece(section.title, MARK), s.target, s.sources, s.addheader, s.addinfo, s.suffix,
             s.themes, PrepItems(Items(OrNone(s.excludes))), PrepItems(Items(OrNone(s.files))),
             s.theme, None, None)
  }

  /** A section whose title starts with the mark defines a build. */
  predicate IsBuildSection(section: Section) {
    MARK <= section.title
  }

  /** `builddef:NAME` defines the build `NAME`. */
  lemma BuildDefName(title: string, settings: Settings)
    requires MARK <= title && forall j :: !OccursAt(title[|MARK|..], MARK, j)
    ensures NewBuildDef(Section(title, settings)).name == title[|MARK|..]
  {
    var rest := title[|MARK|..];
    assert title[0..|MARK|] == MARK;
    assert FindFrom(title, MARK, 0) == 0;
    forall k | |MARK| <= k ensures !OccursAt(title, MARK, k) {
      OccursInTail(title, |MARK|, MARK, k);
    }
    assert FindFrom(title, MARK, |MARK|) == -1;
    assert LastPieceFrom(title, MARK, |MARK|) == |MARK|;
    assert LastPieceFrom(title, MARK, 0) == |MARK|;
  }

  /** An occurrence past the first `n` characters is one in the text that follows them. */
  lemma OccursInTail(s: string, n: nat, sub: string, k: int)
    requires n <= k && n <= |s|
    ensures OccursAt(s, sub, k) <==> OccursAt(s[n..], sub, k - n)
  {
    if k + |sub| <= |s| {
      assert s[k..k + |sub|] == s[n..][k - n..k - n + |sub|];
    }
  }

  /** A build name never contains the mark. */
  lemma BuildDefNameHasNoMark(section: Section)
    ensures forall j :: !OccursAt(NewBuildDef(section).name, MARK, j)
  {
    var s := section.title;
    var k := LastPieceFrom(s, MARK, 0);
    LastPieceHasNoSep(s, MARK, 0);
    forall j | OccursAt(s[k..], MARK, j) ensures false {
      assert s[k + j..k + j + |MARK|] == s[k..][j..j + |MARK|];
      assert OccursAt(s, MARK, k + j);
    }
  }

  /** `IniConfig.make_build_defs`: a build definition per build section, in order. */
  method MakeBuildDefs(sections: seq<Section>) returns (defs: seq<BuildDef>)
    ensures defs == Map(Filter(sections, IsBuildSection), NewBuildDef)
  {
    defs := [];
    for i := 0 to |sections|
      invariant defs == Map(Filter(sections[..i], IsBuildSection), NewBuildDef)
    {
      assert sections[..i + 1] == sections[..i] + [sections[i]];
      assert (sections[..i] + [sections[i]])[..i] == sections[..i];
      if IsBuildSection(sections[i]) {
        MapSnoc(Filter(sections[..i], IsBuildSection), sections[i], NewBuildDef);
        defs := defs + [NewBuildDef(sections[i])];
      }
    }
    assert sections[..|sections|] == sections;
  }

  /** `check_sanity`: `files` and `excludes` cannot both be given. */
  function CheckSanity(bd: BuildDef): (r: Result<(), Error>)
    ensures r.Ok? <==> bd.files == [] || bd.excludes == []
    ensures r.Err? ==> r.error == FilesAndExcludes
  {
    if bd.files != [] && bd.excludes != [] then Err(FilesAndExcludes) else Ok(())
  }

  // -------------------------------------------------------- needs_build

  /**
   * `needs_build`, with `matches` (whose own definition cannot be called as
   * written) given as its outcome and the clock as `now`.
   */
  function NeedsBuild(bd: BuildDef, matches: bool, filename: Path, now: int): (r: bool)
    ensures r ==> matches
  {
    if !matches then false
    else if bd.lastBuild.None? || bd.lastBuild.value == 0 then true
    else if Some(filename) != bd.lastFilename then true
    else now - bd.lastBuild.value >= BUILD_DELAY
  }

  /** Once a change needs a build, the same change later needs one too. */
  lemma NeedsBuildMonotone(bd: BuildDef, matches: bool, filename: Path, now: int, later: int)
    requires now <= later && NeedsBuild(bd, matches, filename, now)
    ensures NeedsBuild(bd, matches, filename, later)
  {
  }

  /**
   * A repeated change to the last built file needs a build exactly when
   * the delay has passed since the last build.
   */
  lemma NeedsBuildDebounce(bd: BuildDef, filename: Path, now: int)
    requires bd.lastBuild.Some? && bd.lastBuild.value != 0 && bd.lastFilename == Some(filename)
    ensures NeedsBuild(bd, true, filename, now) <==> now >= bd.lastBuild.value + BUILD_DELAY
  {
  }

  /** A change to a file other than the one last built needs a build at once, whatever the clock says. */
  lemma NeedsBuildOtherFile(bd: BuildDef, filename: Path, now: int)
    requires bd.lastFilename != Some(filename)
    ensures NeedsBuild(bd, true, filename, now)
  {
  }

  /** A definition with no previous build needs a build for every matching change. */
  lemma NeedsBuildNeverBuilt(bd: BuildDef, filename: Path, now: int)
    requires bd.lastBuild.None? || bd.lastBuild.value == 0
    ensures NeedsBuild(bd, true, filename, now)
  {
  }

  /** Since nothing records builds, a definition as made needs a build whenever the change matches. */
  lemma NeedsBuildAsMade(section: Section, matches: bool, filename: Path, now: int)
    ensures NeedsBuild(NewBuildDef(section), matches, filename, now) == matches
  {
  }

  // ------------------------------------------------- listing directories

  /** The entries of the directories in order, or the first directory that does not exist. */
  function Listed(fs: Listings, dirs: seq<Path>): Result<seq<Entry>, Error> {
    if dirs == [] then Ok([])
    else
      match Listed(fs, dirs[..|dirs| - 1])
      case Err(e) => Err(e)
      case Ok(es) =>
        var d := dirs[|dirs| - 1];
        if d in fs then Ok(es + fs[d]) else Err(NoSuchDirectory(d))
  }

  /** A failure listing a prefix of the directories is the failure of listing them all. */
  lemma {:induction false} ListedFailsEarly(fs: Listings, dirs: seq<Path>, n: nat)
    requires n <= |dirs| && Listed(fs, dirs[..n]).Err?
    ensures Listed(fs, dirs) == Listed(fs, dirs[..n])
    decreases |dirs| - n
  {
    if n < |dirs| {
      assert dirs[..n + 1][..n] == dirs[..n];
      ListedFailsEarly(fs, dirs, n + 1);
    } else {
      assert dirs[..n] == dirs;
    }
  }

  /** The entries of the directories that `keep` accepts, in listing order. */
  function Collected(fs: Listings, dirs: seq<Path>, keep: Entry -> bool): Result<seq<Entry>, Error> {
    match Listed(fs, dirs)
    case Err(e) => Err(e)
    case Ok(es) => Ok(Filter(es, keep))
  }

  /** The inner loop of `get_config_parts` and `get_theme`: keep the accepted entries of one listing. */
  method CollectListing(found: seq<Entry>, listing: seq<Entry>, keep: Entry -> bool) returns (found': seq<Entry>)
    ensures found' == found + Filter(listing, keep)
  {
    found' := found;
    for j := 0 to |listing|
      invariant found' == found + Filter(listing[..j], keep)
    {
      assert listing[..j + 1] == listing[..j] + [listing[j]];
      if keep(listing[j]) {
        found' := found' + [listing[j]];
      }
    }
    assert listing[..|listing|] == listing;
  }

  /** The outer loop of `get_config_parts` and `get_theme`, over the directories. */
  method Collect(fs: Listings, dirs: seq<Path>, keep: Entry -> bool) returns (r: Result<seq<Entry>, Error>)
    ensures r == Collected(fs, dirs, keep)
  {
    var found: seq<Entry> := [];
    for i := 0 to |dirs|
      invariant Listed(fs, dirs[..i]).Ok?
      invariant found == Filter(Listed(fs, dirs[..i]).value, keep)
    {
      assert dirs[..i + 1][..i] == dirs[..i];
      var dir := dirs[i];
      if dir !in fs {
        ListedFailsEarly(fs, dirs, i + 1);
        return Err(NoSuchDirectory(dir));
      }
      FilterAppend(Listed(fs, dirs[..i]).value, fs[dir], keep);
      found := CollectListing(found, fs[dir], keep);
    }
    assert dirs[..|dirs|] == dirs;
    return Ok(found);
  }

  // ------------------------------------------------------ config parts

  /** A source file that goes into the build. */
  predicate IsPart(bd: BuildDef, e: Entry) {
    var name := Name(e.path);
    e.isFile && name !in bd.excludes && Suffix(name) == bd.suffix
      && (bd.files == [] || name in bd.files)
  }

  function PartFilter(bd: BuildDef): Entry -> bool {
    e => IsPart(bd, e)
  }

  /** What `get_config_parts` returns. */
  function ConfigParts(fs: Listings, bd: BuildDef): Result<seq<Entry>, Error> {
    match Collected(fs, bd.sources, PartFilter(bd))
    case Err(e) => Err(e)
    case Ok(parts) => Ok(SortBy(parts, PathOf))
  }

  /** `get_config_parts`: the source files of the build, sorted by path. */
  method GetConfigParts(fs: Listings, bd: BuildDef) returns (r: Result<seq<Entry>, Error>)
    ensures r == ConfigParts(fs, bd)
  {
    var found := Collect(fs, bd.sources, PartFilter(bd));
    if found.Err? {
      return Err(found.error);
    }
    r := Ok(SortBy(found.value, PathOf));
  }

  /**
   * The parts are exactly the listed regular files with the build's suffix
   * that are not excluded and, when a files list is given, are on it; each
   * as often as it is listed, sorted by path.
   */
  lemma ConfigPartsExactly(fs: Listings, bd: BuildDef)
    ensures ConfigParts(fs, bd).Ok? <==> Listed(fs, bd.sources).Ok?
    ensures ConfigParts(fs, bd).Ok? ==>
      var parts, listed := ConfigParts(fs, bd).value, Listed(fs, bd.sources).value;
      && SortedBy(parts, PathOf)
      && (forall e :: multiset(parts)[e] == if IsPart(bd, e) then multiset(listed)[e] else 0)
      && (forall e :: e in parts <==> e in listed && IsPart(bd, e))
  {
    if Listed(fs, bd.sources).Ok? {
      var listed := Listed(fs, bd.sources).value;
      var found := Filter(listed, PartFilter(bd));
      FilterKeepsExactly(listed, PartFilter(bd));
      var parts := SortBy(found, PathOf);
      forall e ensures e in parts <==> e in listed && IsPart(bd, e) {
        assert e in parts <==> e in multiset(parts);
        assert e in found <==> e in multiset(found);
      }
    }
  }

  /** With a sane definition, the files list, when given, decides alone; otherwise the excludes do. */
  lemma SaneDefinitionUsesOneList(bd: BuildDef, e: Entry)
    requires CheckSanity(bd).Ok?
    ensures IsPart(bd, e) <==>
      e.isFile && Suffix(Name(e.path)) == bd.suffix
        && (if bd.files != [] then Name(e.path) in bd.files else Name(e.path) !in bd.excludes)
  {
  }

  // --------------------------------------------------------------- theme

  predicate IsThemeFile(theme: string, e: Entry) {
    e.isFile && Name(e.path) == theme
  }

  function ThemeFilter(theme: string): Entry -> bool {
    e => IsThemeFile(theme, e)
  }

  function TextOf(e: Entry): string {
    e.text
  }

  /** What `get_theme` returns: the texts of the files named like the theme, joined with newlines. */
  function ThemeContent(fs: Listings, themes: seq<Path>, theme: string): Result<string, Error> {
    match Collected(fs, themes, ThemeFilter(theme))
    case Err(e) => Err(e)
    case Ok(found) => if found == [] then Err(NoThemeContent(theme)) else Ok(Join(Map(found, TextOf), "\n"))
  }

  /** `get_theme`. */
  method GetTheme(fs: Listings, themes: seq<Path>, theme: string) returns (r: Result<string, Error>)
    ensures r == ThemeContent(fs, themes, theme)
  {
    var found := Collect(fs, themes, ThemeFilter(theme));
    if found.Err? {
      return Err(found.error);
    }
    if found.value == [] {
      return Err(NoThemeContent(theme));
    }
    r := Ok(Join(Map(found.value, TextOf), "\n"));
  }

  /**
   * The theme fails exactly when the directories list and no regular file
   * is named like the theme.
   */
  lemma ThemeFailsIffNoFile(fs: Listings, themes: seq<Path>, theme: string)
    requires Listed(fs, themes).Ok?
    ensures ThemeContent(fs, themes, theme).Err? <==>
      forall e :: e in Listed(fs, themes).value ==> !IsThemeFile(theme, e)
  {
    var listed := Listed(fs, themes).value;
    var found := Filter(listed, ThemeFilter(theme));
    FilterKeepsExactly(listed, ThemeFilter(theme));
    assert forall e :: e in found <==> e in listed && IsThemeFile(theme, e);
    if found != [] {
      assert found[0] in found;
    }
  }

  // --------------------------------------------------------------- build

  /** The middle line of the header. */
  function HeaderMessage(name: string, timestamp: string): string {
    "# " + name + " (i3configger: " + timestamp + ") #"
  }

  /** The build header: the message framed by lines of `#` of its length. */
  function Header(name: string, timestamp: string): string {
    var msg := HeaderMessage(name, timestamp);
    var sep := Repeat('#', |msg|);
    sep + "\n" + msg + "\n" + sep
  }

  /**
   * For a name and a time stamp without line breaks the header is three
   * lines: the message between two lines of `#` exactly as long.
   */
  lemma HeaderLines(name: string, timestamp: string)
    requires NoneIn(name, IsLineBreak) && NoneIn(timestamp, IsLineBreak)
    ensures var msg := HeaderMessage(name, timestamp);
      Lines(Header(name, timestamp)) == [Repeat('#', |msg|), msg, Repeat('#', |msg|)]
  {
    var msg := HeaderMessage(name, timestamp);
    var sep := Repeat('#', |msg|);
    assert NoneIn(sep, IsLineBreak);
    assert NoneIn("# ", IsLineBreak) && NoneIn(" (i3configger: ", IsLineBreak) && NoneIn(") #", IsLineBreak);
    NoneInAppend("# ", name, IsLineBreak);
    NoneInAppend("# " + name, " (i3configger: ", IsLineBreak);
    NoneInAppend("# " + name + " (i3configger: ", timestamp, IsLineBreak);
    NoneInAppend("# " + name + " (i3configger: " + timestamp, ") #", IsLineBreak);
    SplitByNoSep(sep, IsLineBreak);
    SplitByAt(msg, '\n', sep, IsLineBreak);
    assert msg + "\n" + sep == msg + ['\n'] + sep;
    SplitByAt(sep, '\n', msg + "\n" + sep, IsLineBreak);
    assert Header(name, timestamp) == sep + ['\n'] + (msg + "\n" + sep);
  }

  /** One part in the output: its text, after a banner naming its path when `addinfo` is set. */
  function PartText(bd: BuildDef, e: Entry): string {
    (if bd.addinfo then "### " + PathText(e.path) + " ###\n" else "") + e.text
  }

  function PartTextOf(bd: BuildDef): Entry -> string {
    e => PartText(bd, e)
  }

  /** The pieces `build` joins: the header, the theme, then the parts in order. */
  function BuildPieces(fs: Listings, bd: BuildDef, timestamp: string): Result<seq<string>, Error> {
    match FrontPieces(fs, bd, timestamp)
    case Err(e) => Err(e)
    case Ok(front) =>
      match ConfigParts(fs, bd)
      case Err(e) => Err(e)
      case Ok(parts) => Ok(front + Map(parts, PartTextOf(bd)))
  }

  /** The text `build` writes to the target. */
  function BuildOutput(fs: Listings, bd: BuildDef, timestamp: string): Result<string, Error> {
    match BuildPieces(fs, bd, timestamp)
    case Err(e) => Err(e)
    case Ok(pieces) => Ok(Join(pieces, "\n"))
  }

  /** The header and the theme, the pieces in front of the parts. */
  function FrontPieces(fs: Listings, bd: BuildDef, timestamp: string): Result<seq<string>, Error> {
    var header := if bd.addheader then [Header(bd.name, timestamp)] else [];
    if !bd.HasTheme() then Ok(header)
    else
      match ThemeContent(fs, bd.themes, bd.theme.value)
      case Err(e) => Err(e)
      case Ok(t) => Ok(header + [t])
  }

  /** The first half of `build`: the header when asked for, then the theme when one is set. */
  method BuildFront(fs: Listings, bd: BuildDef, timestamp: string) returns (r: Result<seq<string>, Error>)
    ensures r == FrontPieces(fs, bd, timestamp)
  {
    var out: seq<string> := [];
    if bd.addheader {
      out := [Header(bd.name, timestamp)];
    }
    if bd.HasTheme() {
      var theme := GetTheme(fs, bd.themes, bd.theme.value);
      if theme.Err? {
        return Err(theme.error);
      }
      out := out + [theme.value];
    }
    r := Ok(out);
  }

  /** The second half of `build`: one piece per part, appended in order. */
  method AppendParts(front: seq<string>, bd: BuildDef, parts: seq<Entry>) returns (out: seq<string>)
    ensures out == front + Map(parts, PartTextOf(bd))
  {
    out := front;
    for i := 0 to |parts|
      invariant out == front + Map(parts[..i], PartTextOf(bd))
    {
      assert parts[..i + 1] == parts[..i] + [parts[i]];
      MapSnoc(parts[..i], parts[i], PartTextOf(bd));
      out := out + [PartText(bd, parts[i])];
    }
    assert parts[..|parts|] == parts;
  }

  /** `BuildDef.build`, returning the text instead of writing it to the target. */
  method Build(fs: Listings, bd: BuildDef, timestamp: string) returns (r: Result<string, Error>)
    ensures r == BuildOutput(fs, bd, timestamp)
  {
    var front := BuildFront(fs, bd, timestamp);
    if front.Err? {
      return Err(front.error);
    }
    var parts := GetConfigParts(fs, bd);
    if parts.Err? {
      return Err(parts.error);
    }
    var out := AppendParts(front.value, bd, parts.value);
    r := Ok(Join(out, "\n"));
  }

  /**
   * The pieces of a build: the header first when asked for, then the theme
   * when one is set, then one piece per part in sorted order.
   */
  lemma BuildLayout(fs: Listings, bd: BuildDef, timestamp: string)
    requires BuildPieces(fs, bd, timestamp).Ok?
    ensures ConfigParts(fs, bd).Ok?
    ensures var pieces, parts := BuildPieces(fs, bd, timestamp).value, ConfigParts(fs, bd).value;
      var h, t := (if bd.addheader then 1 else 0), (if bd.HasTheme() then 1 else 0);
      && |pieces| == h + t + |parts|
      && (bd.addheader ==> pieces[0] == Header(bd.name, timestamp))
      && (bd.HasTheme() ==> ThemeContent(fs, bd.themes, bd.theme.value) == Ok(pieces[h]))
      && (forall k :: 0 <= k < |parts| ==> pieces[h + t + k] == PartText(bd, parts[k]))
  {
  }

  // ------------------------------------------------------------- watcher

  /** The number of events whose processing failed. */
  function Failures(failed: seq<bool>): (n: nat)
    ensures n <= |failed|
  {
    if failed == [] then 0
    else (if failed[|failed| - 1] then 1 else 0) + Failures(failed[..|failed| - 1])
  }

  /**
   * The watcher gives up at event `k` when that event fails and brings the
   * error counter, started at `start`, to the budget.
   */
  predicate GivesUpAt(start: int, maxerrors: int, failed: seq<bool>, k: nat)
    requires k < |failed|
  {
    failed[k] && start + Failures(failed[..k + 1]) == maxerrors
  }

  /** The error budget of a watcher made without one. */
  const DEFAULT_MAXERRORS := 10

  /** The watcher of `I3Configger`: its error budget and the errors counted so far. */
  class Watcher {
    const maxerrors: int
    var errors: int

    constructor(maxerrors: int := DEFAULT_MAXERRORS)
      ensures this.maxerrors == maxerrors && errors == 0
    {
      this.maxerrors := maxerrors;
      errors := 0;
    }

    /**
     * `watch_guarded` over a sequence of events, each given by whether
     * processing it failed: every failure is counted, and the watcher gives
     * up when the count equals the budget.
     */
    method WatchGuarded(failed: seq<bool>) returns (r: Result<(), Error>)
      modifies this
      ensures r.Err? <==> exists k :: 0 <= k < |failed| && GivesUpAt(old(errors), maxerrors, failed, k)
      ensures r.Err? ==> r == Err(GivingUp(maxerrors)) && errors == maxerrors
      ensures r.Ok? ==> errors == old(errors) + Failures(failed)
    {
      for i := 0 to |failed|
        invariant errors == old(errors) + Failures(failed[..i])
        invariant forall k :: 0 <= k < i ==> !GivesUpAt(old(errors), maxerrors, failed, k)
      {
        assert failed[..i + 1][..i] == failed[..i];
        if failed[i] {
          errors := errors + 1;
          if errors == maxerrors {
            assert GivesUpAt(old(errors), maxerrors, failed, i);
            return Err(GivingUp(errors));
          }
        }
      }
      assert failed[..|failed|] == failed;
      r := Ok(());
    }
  }

  /** A counter already at or past the budget never equals it again: the watcher never gives up. */
  lemma OverBudgetNeverGivesUp(start: int, maxerrors: int, failed: seq<bool>, k: nat)
    requires maxerrors <= start && k < |failed|
    ensures !GivesUpAt(start, maxerrors, failed, k)
  {
    assert failed[..k + 1][..k] == failed[..k];
  }

  /** Below the budget, enough failures make the watcher give up. */
  lemma {:induction false} GivesUpWithinBudget(start: int, maxerrors: int, failed: seq<bool>)
    requires start < maxerrors <= start + Failures(failed)
    ensures exists k :: 0 <= k < |failed| && GivesUpAt(start, maxerrors, failed, k)
  {
    var n := |failed|;
    var init := failed[..n - 1];
    assert failed[..n] == failed;
    if start + Failures(init) >= maxerrors {
      GivesUpWithinBudget(start, maxerrors, init);
      var k :| 0 <= k < |init| && GivesUpAt(start, maxerrors, init, k);
      assert failed[..k + 1] == init[..k + 1];
      assert failed[k] == init[k];
      assert GivesUpAt(start, maxerrors, failed, k);
    } else {
      assert GivesUpAt(start, maxerrors, failed, n - 1);
    }
  }
}
