/** The storage service's path derivation
    (backup_server/server/services/storage.py): the top-level folder chosen
    from the source tag or the MIME type, the `Folder/YYYY/MM/name` layout,
    and the collision search that appends `_1`, `_2`, ... to the stem.
    The storage tree is the set of relative paths that already exist,
    written with `/` between components. */
module Storage {
  import opened Common
  import opened Decimal
  import opened Filenames

  /** A calendar date as far as the layout needs it. Python's `datetime`
      keeps years in 1..9999. */
  datatype CalendarDate = CalendarDate(year: int, month: int)

  type Date = d: CalendarDate | 1 <= d.year <= 9999 && 1 <= d.month <= 12
    witness CalendarDate(1970, 1)

  /** `SOURCE_FOLDERS`: `None` means "decide by MIME type". */
  const SourceFolders: map<string, Option<string>> :=
    map["camera" := None, "whatsapp" := Some("WhatsApp"),
        "wechat" := Some("WeChat"), "downloads" := Some("Downloads")]

  /** The folders `_get_media_folder` can answer. */
  const MediaFolders: set<string> :=
    {"Photos", "Videos", "Other", "WhatsApp", "WeChat", "Downloads"}

  /** `_get_media_folder`. */
  function MediaFolder(mimeType: string, source: Option<string>): (folder: string)
    ensures folder in MediaFolders
  {
    if Truthy(source) && source.value in SourceFolders && SourceFolders[source.value].Some? then
      SourceFolders[source.value].value
    else if StartsWith(mimeType, "image/") then "Photos"
    else if StartsWith(mimeType, "video/") then "Videos"
    else "Other"
  }

  /** The three dedicated sources win over any MIME type; every other
      source, `camera` and an absent source fall back to the MIME type. */
  lemma MediaFolderRouting(mimeType: string, source: Option<string>)
    ensures source == Some("whatsapp") ==> MediaFolder(mimeType, source) == "WhatsApp"
    ensures source == Some("wechat") ==> MediaFolder(mimeType, source) == "WeChat"
    ensures source == Some("downloads") ==> MediaFolder(mimeType, source) == "Downloads"
    ensures source !in {Some("whatsapp"), Some("wechat"), Some("downloads")} ==>
              MediaFolder(mimeType, source) ==
                (if StartsWith(mimeType, "image/") then "Photos"
                 else if StartsWith(mimeType, "video/") then "Videos"
                 else "Other")
  {
  }

  /** A relative storage path `folder/year/month/name`. */
  datatype RelPath = RelPath(folder: string, year: string, month: string, name: string)

  /** `str(relative_path)` with POSIX separators. */
  function Render(p: RelPath): string {
    p.folder + "/" + p.year + "/" + p.month + "/" + p.name
  }

  /** `s.split("/")`. */
  function SplitOnSlash(s: string): (parts: seq<string>)
    ensures |parts| >= 1
    decreases |s|
  {
    if |s| == 0 then [""]
    else
      var rest := SplitOnSlash(s[1..]);
      if s[0] == '/' then [""] + rest else [[s[0]] + rest[0]] + rest[1..]
  }

  lemma {:induction false} SplitPlain(a: string)
    requires '/' !in a
    ensures SplitOnSlash(a) == [a]
    decreases |a|
  {
    if |a| > 0 {
      SplitPlain(a[1..]);
      assert [a[0]] + a[1..] == a;
    }
  }

  lemma {:induction false} SplitFirst(a: string, b: string)
    requires '/' !in a
    ensures SplitOnSlash(a + "/" + b) == [a] + SplitOnSlash(b)
    decreases |a|
  {
    if |a| == 0 {
      assert a + "/" + b == "/" + b;
      assert ("/" + b)[1..] == b;
    } else {
      var s := a + "/" + b;
      assert s[1..] == a[1..] + "/" + b;
      SplitFirst(a[1..], b);
      assert [a[0]] + a[1..] == a;
    }
  }

  /** No component holds the separator. */
  predicate WellFormed(p: RelPath) {
    '/' !in p.folder && '/' !in p.year && '/' !in p.month && '/' !in p.name
  }

  /** A well-formed path renders to exactly four components, which are its
      folder, year, month and name. */
  lemma RenderSplits(p: RelPath)
    requires WellFormed(p)
    ensures SplitOnSlash(Render(p)) == [p.folder, p.year, p.month, p.name]
  {
    var tail := p.month + "/" + p.name;
    assert Render(p) == p.folder + "/" + (p.year + "/" + tail);
    SplitFirst(p.folder, p.year + "/" + tail);
    SplitFirst(p.year, tail);
    SplitFirst(p.month, p.name);
    SplitPlain(p.name);
  }

  /** Distinct well-formed paths never render to the same string. */
  lemma RenderInjective(p: RelPath, q: RelPath)
    requires WellFormed(p) && WellFormed(q)
    ensures Render(p) == Render(q) ==> p == q
  {
    RenderSplits(p);
    RenderSplits(q);
  }

  /** `str.rfind('.')`: the index of the last dot, or -1. */
  function LastDot(name: string): (i: int)
    ensures -1 <= i < |name|
    ensures i >= 0 ==> name[i] == '.'
    ensures forall k :: i < k < |name| ==> name[k] != '.'
  {
    if |name| == 0 then -1
    else if name[|name| - 1] == '.' then |name| - 1
    else LastDot(name[..|name| - 1])
  }

  /** pathlib's rule: a suffix needs a dot that is neither first nor last. */
  predicate HasSuffix(name: string) {
    0 < LastDot(name) < |name| - 1
  }

  /** `PurePath.stem`: a prefix of the name, empty only for the empty name. */
  function Stem(name: string): (r: string)
    ensures |r| <= |name| && r == name[..|r|]
    ensures |name| > 0 ==> |r| > 0
  {
    if HasSuffix(name) then name[..LastDot(name)] else name
  }

  /** `PurePath.suffix`: non-empty exactly when the last dot of the name
      is neither its first nor its last character, and then the tail of
      the name from that dot on. */
  function Suffix(name: string): (r: string)
    ensures r != [] <==> exists i :: && 0 < i < |name| - 1 && name[i] == '.'
                                     && forall j :: i < j < |name| ==> name[j] != '.'
    ensures r != [] ==> && 2 <= |r| < |name|
                        && r == name[|name| - |r|..]
                        && r[0] == '.'
                        && forall k :: 1 <= k < |r| ==> r[k] != '.'
  {
    if HasSuffix(name) then name[LastDot(name)..] else ""
  }

  lemma StemSuffixSplit(name: string)
    ensures Stem(name) + Suffix(name) == name
    ensures Suffix(name) == [] || Suffix(name)[0] == '.'
    ensures |name| > 0 ==> |Stem(name)| > 0 && Stem(name)[0] == name[0]
  {
  }

  /** The name tried at collision counter `k`: the name itself for 0,
      `f"{stem}_{k}{suffix}"` after that. */
  function CandidateName(name: string, k: nat): (r: string)
    ensures k == 0 ==> r == name
    ensures k > 0 ==> && |r| > |name|
                      && r[..|Stem(name)|] == Stem(name)
                      && r[|Stem(name)|] == '_'
                      && r[|Stem(name)| + 1..|r| - |Suffix(name)|] == Dec(k)
                      && r[|r| - |Suffix(name)|..] == Suffix(name)
  {
    StemSuffixSplit(name);
    if k == 0 then name else Stem(name) + "_" + Dec(k) + Suffix(name)
  }

  function Candidate(base: RelPath, k: nat): RelPath {
    base.(name := CandidateName(base.name, k))
  }

  lemma SafeConcat(a: string, b: string, unicodeWord: char -> bool)
    requires AllSafe(a, unicodeWord) && AllSafe(b, unicodeWord)
    ensures AllSafe(a + b, unicodeWord)
  {
    forall i | 0 <= i < |a + b| ensures IsSafeChar((a + b)[i], unicodeWord) {
      if i >= |a| {
        assert (a + b)[i] == b[i - |a|];
      }
    }
  }

  lemma SafeSplit(a: string, b: string, unicodeWord: char -> bool)
    requires AllSafe(a + b, unicodeWord)
    ensures AllSafe(a, unicodeWord) && AllSafe(b, unicodeWord)
  {
    forall i | 0 <= i < |b| ensures IsSafeChar(b[i], unicodeWord) {
      assert b[i] == (a + b)[|a| + i];
    }
    forall i | 0 <= i < |a| ensures IsSafeChar(a[i], unicodeWord) {
      assert a[i] == (a + b)[i];
    }
  }

  lemma DigitsSafe(s: string, unicodeWord: char -> bool)
    requires AllDigits(s)
    ensures AllSafe(s, unicodeWord)
  {
    forall i | 0 <= i < |s| ensures IsSafeChar(s[i], unicodeWord) {
      assert IsDigit(s[i]);
    }
  }

  /** A collision name is still something the sanitiser could return. */
  lemma CandidateNameSanitized(name: string, k: nat, unicodeWord: char -> bool)
    requires IsSanitized(name, unicodeWord)
    ensures IsSanitized(CandidateName(name, k), unicodeWord)
  {
    if k > 0 {
      StemSuffixSplit(name);
      assert CandidateName(name, k) == Stem(name) + "_" + Dec(k) + Suffix(name);
      CollisionSanitized(Stem(name), Dec(k), Suffix(name), unicodeWord);
    }
  }

  lemma CollisionSanitized(stem: string, digits: string, suffix: string, unicodeWord: char -> bool)
    requires IsSanitized(stem + suffix, unicodeWord) && |stem| > 0
    requires |digits| > 0 && AllDigits(digits)
    ensures IsSanitized(stem + "_" + digits + suffix, unicodeWord)
  {
    var name := stem + suffix;
    SafeSplit(stem, suffix, unicodeWord);
    DigitsSafe(digits, unicodeWord);
    assert AllSafe("_", unicodeWord);
    SafeConcat(stem, "_", unicodeWord);
    SafeConcat(stem + "_", digits, unicodeWord);
    SafeConcat(stem + "_" + digits, suffix, unicodeWord);
    CandidateEnds(stem, digits, suffix);
    assert name[0] == stem[0];
    if |suffix| > 0 {
      assert name[|name| - 1] == suffix[|suffix| - 1];
    } else {
      assert IsDigit(digits[|digits| - 1]);
    }
  }

  /** The first and last characters of `stem_digits+suffix`. */
  lemma CandidateEnds(stem: string, digits: string, suffix: string)
    requires |stem| > 0 && |digits| > 0
    ensures var c := stem + "_" + digits + suffix;
            && c[0] == stem[0]
            && c[|c| - 1] == if |suffix| > 0 then suffix[|suffix| - 1] else digits[|digits| - 1]
  {
    var c := stem + "_" + digits + suffix;
    if |suffix| > 0 {
      assert c[|c| - 1] == suffix[|suffix| - 1];
    } else {
      assert c == stem + "_" + digits;
    }
  }

  /** A second collision on a double extension keeps the last extension:
      `archive.tar.gz` becomes `archive.tar_2.gz`. */
  lemma CollisionNameExample()
    ensures CandidateName("archive.tar.gz", 2) == "archive.tar_2.gz"
  {
    var name := "archive.tar.gz";
    assert LastDot(name) == 11 by {
      assert name[11] == '.' && name[12] != '.' && name[13] != '.';
    }
    assert Dec(2) == "2";
  }

  /** Different counters give different names. */
  lemma CandidateNameInjective(name: string, i: nat, j: nat)
    requires i != j
    ensures CandidateName(name, i) != CandidateName(name, j)
  {
    if i > 0 && j > 0 {
      DecInjective(i, j);
    }
  }

  lemma PrefixCancel(p: string, x: string, y: string)
    ensures p + x == p + y ==> x == y
  {
    if p + x == p + y {
      assert x == (p + x)[|p|..];
      assert y == (p + y)[|p|..];
    }
  }

  /** Different counters give different rendered paths. */
  lemma CandidatePathInjective(base: RelPath, i: nat, j: nat)
    requires i != j
    ensures Render(Candidate(base, i)) != Render(Candidate(base, j))
  {
    CandidateNameInjective(base.name, i, j);
    var prefix := base.folder + "/" + base.year + "/" + base.month + "/";
    assert Render(Candidate(base, i)) == prefix + CandidateName(base.name, i);
    assert Render(Candidate(base, j)) == prefix + CandidateName(base.name, j);
    PrefixCancel(prefix, CandidateName(base.name, i), CandidateName(base.name, j));
  }

  /** The names an injective naming gives counters `0..k`. */
  ghost predicate InjectiveNaming(f: nat -> string) {
    forall i: nat, j: nat :: i != j ==> f(i) != f(j)
  }

  ghost function NamesUpTo(f: nat -> string, k: nat): set<string> {
    if k == 0 then {f(0)} else NamesUpTo(f, k - 1) + {f(k)}
  }

  /** A later counter's name is none of the earlier ones. */
  lemma {:induction false} NameIsNew(f: nat -> string, m: nat, j: nat)
    requires InjectiveNaming(f) && m < j
    ensures f(j) !in NamesUpTo(f, m)
    decreases m
  {
    assert f(m) != f(j);
    if m > 0 {
      NameIsNew(f, m - 1, j);
    }
  }

  /** Counters `0..k` give `k + 1` distinct names. */
  lemma {:induction false} NamesUpToSize(f: nat -> string, k: nat)
    requires InjectiveNaming(f)
    ensures |NamesUpTo(f, k)| == k + 1
    decreases k
  {
    if k > 0 {
      NamesUpToSize(f, k - 1);
      NameIsNew(f, k - 1, k);
    }
  }

  lemma {:induction false} NamesTaken(stored: set<string>, f: nat -> string, k: nat)
    requires forall j :: 0 <= j <= k ==> f(j) in stored
    ensures NamesUpTo(f, k) <= stored
    decreases k
  {
    assert f(k) in stored;
    if k > 0 {
      NamesTaken(stored, f, k - 1);
    }
  }

  lemma {:induction false} SubsetSize<T>(a: set<T>, b: set<T>)
    requires a <= b
    ensures |a| <= |b|
  {
    assert b == a + (b - a);
  }

  /** If counters `0..k` are all taken, the storage tree holds more than
      `k` paths, so the collision search cannot run past its size. */
  lemma TakenBound(stored: set<string>, f: nat -> string, k: nat)
    requires InjectiveNaming(f)
    requires forall j :: 0 <= j <= k ==> f(j) in stored
    ensures k < |stored|
  {
    NamesUpToSize(f, k);
    NamesTaken(stored, f, k);
    SubsetSize(NamesUpTo(f, k), stored);
  }

  /** The collision loop: the least counter from `k` on whose path is free. */
  function FirstFree(stored: set<string>, f: nat -> string, k: nat): (n: nat)
    requires InjectiveNaming(f)
    requires forall j :: 0 <= j < k ==> f(j) in stored
    ensures k <= n
    ensures f(n) !in stored
    ensures forall j :: 0 <= j < n ==> f(j) in stored
    decreases |stored| - k
  {
    if f(k) !in stored then k
    else
      TakenBound(stored, f, k);
      FirstFree(stored, f, k + 1)
  }

  /** The rendered path tried at each collision counter. */
  function CandidatePaths(base: RelPath): nat -> string {
    (j: nat) => Render(Candidate(base, j))
  }

  lemma CandidatePathsInjective(base: RelPath)
    ensures InjectiveNaming(CandidatePaths(base))
  {
    var f := CandidatePaths(base);
    forall i: nat, j: nat | i != j ensures f(i) != f(j) {
      CandidatePathInjective(base, i, j);
    }
  }

  /** The path before collision handling. */
  function BasePath(filename: string, mimeType: string, date: Date, source: Option<string>,
                    unicodeWord: char -> bool): RelPath
  {
    RelPath(MediaFolder(mimeType, source), Dec(date.year), PadTwo(date.month),
            Sanitize(filename, unicodeWord))
  }

  /** Every candidate of a base path built from a media folder, decimal
      date components and a sanitised name is well formed and sanitised. */
  lemma CandidateWellFormed(base: RelPath, n: nat, unicodeWord: char -> bool)
    requires base.folder in MediaFolders
    requires AllDigits(base.year) && AllDigits(base.month)
    requires IsSanitized(base.name, unicodeWord)
    ensures WellFormed(Candidate(base, n))
    ensures IsSanitized(Candidate(base, n).name, unicodeWord)
  {
    CandidateNameSanitized(base.name, n, unicodeWord);
    SanitizedHasNoSeparator(CandidateName(base.name, n), unicodeWord);
    FolderHasNoSeparator(base.folder);
    DigitsHaveNoSeparator(base.year);
    DigitsHaveNoSeparator(base.month);
  }

  lemma FolderHasNoSeparator(folder: string)
    requires folder in MediaFolders
    ensures '/' !in folder
  {
  }

  lemma DigitsHaveNoSeparator(s: string)
    requires AllDigits(s)
    ensures '/' !in s
  {
  }

  /** `get_storage_path`; `now` stands for `datetime.now()`. */
  function StoragePath(stored: set<string>, filename: string, mimeType: string,
                       dateTaken: Option<Date>, source: Option<string>, now: Date,
                       unicodeWord: char -> bool): (p: RelPath)
    ensures Render(p) !in stored
    ensures WellFormed(p)
    ensures p.folder == MediaFolder(mimeType, source)
    ensures |p.year| > 0 && p.year[0] != '0'
    ensures AllDigits(p.year) && Parse(p.year) == dateTaken.GetOr(now).year
    ensures |p.month| == 2 && AllDigits(p.month) && Parse(p.month) == dateTaken.GetOr(now).month
    ensures IsSanitized(p.name, unicodeWord)
  {
    var date := dateTaken.GetOr(now);
    var base := BasePath(filename, mimeType, date, source, unicodeWord);
    CandidatePathsInjective(base);
    var n := FirstFree(stored, CandidatePaths(base), 0);
    ParseDec(date.year);
    ParsePadTwo(date.month);
    CandidateWellFormed(base, n, unicodeWord);
    Candidate(base, n)
  }

  /** Without a collision the name is the sanitised file name; with one it
      is `stem_N+suffix` for the least `N >= 1` whose path is free. */
  lemma StoragePathCollision(stored: set<string>, filename: string, mimeType: string,
                             dateTaken: Option<Date>, source: Option<string>, now: Date,
                             unicodeWord: char -> bool)
    ensures var base := BasePath(filename, mimeType, dateTaken.GetOr(now), source, unicodeWord);
            var p := StoragePath(stored, filename, mimeType, dateTaken, source, now, unicodeWord);
            && (Render(base) !in stored ==> p.name == Sanitize(filename, unicodeWord))
            && (Render(base) in stored ==>
                  exists n :: n >= 1 && p.name == CandidateName(base.name, n)
                              && Render(Candidate(base, n)) !in stored
                              && forall j :: 1 <= j < n ==> Render(Candidate(base, j)) in stored)
  {
    var base := BasePath(filename, mimeType, dateTaken.GetOr(now), source, unicodeWord);
    CandidatePathsInjective(base);
    var n := FirstFree(stored, CandidatePaths(base), 0);
    assert Candidate(base, 0) == base;
    var f := CandidatePaths(base);
    assert f(0) == Render(base);
    if Render(base) in stored {
      forall j | 1 <= j < n ensures Render(Candidate(base, j)) in stored {
        assert f(j) in stored;
      }
      assert Render(Candidate(base, n)) !in stored by { assert f(n) !in stored; }
      assert n >= 1 && CandidateName(base.name, n) == Candidate(base, n).name;
    }
  }

  /** The rendered path splits into the four components `get_storage_path`
      promises, and without a collision the last is the sanitised name. */
  lemma StoragePathLayout(stored: set<string>, filename: string, mimeType: string,
                          dateTaken: Option<Date>, source: Option<string>, now: Date,
                          unicodeWord: char -> bool)
    ensures var date := dateTaken.GetOr(now);
            var p := StoragePath(stored, filename, mimeType, dateTaken, source, now, unicodeWord);
            var parts := SplitOnSlash(Render(p));
            && |parts| == 4
            && parts[0] == MediaFolder(mimeType, source)
            && |parts[1]| > 0 && parts[1][0] != '0'
            && AllDigits(parts[1]) && Parse(parts[1]) == date.year
            && |parts[2]| == 2 && AllDigits(parts[2]) && Parse(parts[2]) == date.month
            && IsSanitized(parts[3], unicodeWord)
            && (Render(BasePath(filename, mimeType, date, source, unicodeWord)) !in stored
                ==> parts[3] == Sanitize(filename, unicodeWord))
  {
    var date := dateTaken.GetOr(now);
    var p := StoragePath(stored, filename, mimeType, dateTaken, source, now, unicodeWord);
    PartsOf(p, MediaFolder(mimeType, source), date.year, date.month, unicodeWord);
    if Render(BasePath(filename, mimeType, dateTaken.GetOr(now), source, unicodeWord)) !in stored {
      StoragePathFree(stored, filename, mimeType, dateTaken, source, now, unicodeWord);
    }
  }

  /** The four parts a well-formed path splits back into. */
  lemma PartsOf(p: RelPath, folder: string, year: int, month: int, unicodeWord: char -> bool)
    requires WellFormed(p) && p.folder == folder
    requires |p.year| > 0 && p.year[0] != '0'
    requires AllDigits(p.year) && Parse(p.year) == year
    requires |p.month| == 2 && AllDigits(p.month) && Parse(p.month) == month
    requires IsSanitized(p.name, unicodeWord)
    ensures var parts := SplitOnSlash(Render(p));
            && |parts| == 4
            && parts[0] == folder
            && |parts[1]| > 0 && parts[1][0] != '0'
            && AllDigits(parts[1]) && Parse(parts[1]) == year
            && |parts[2]| == 2 && AllDigits(parts[2]) && Parse(parts[2]) == month
            && IsSanitized(parts[3], unicodeWord)
            && parts[3] == p.name
  {
    RenderSplits(p);
    var parts := SplitOnSlash(Render(p));
    assert |parts| == 4 && parts[0] == p.folder && parts[1] == p.year;
    assert parts[2] == p.month && parts[3] == p.name;
  }

  /** When the base path is free, `get_storage_path` returns it unchanged. */
  lemma StoragePathFree(stored: set<string>, filename: string, mimeType: string,
                        dateTaken: Option<Date>, source: Option<string>, now: Date,
                        unicodeWord: char -> bool)
    requires Render(BasePath(filename, mimeType, dateTaken.GetOr(now), source, unicodeWord)) !in stored
    ensures StoragePath(stored, filename, mimeType, dateTaken, source, now, unicodeWord)
            == BasePath(filename, mimeType, dateTaken.GetOr(now), source, unicodeWord)
  {
    assert Candidate(BasePath(filename, mimeType, dateTaken.GetOr(now), source, unicodeWord), 0)
           == BasePath(filename, mimeType, dateTaken.GetOr(now), source, unicodeWord);
  }
}
