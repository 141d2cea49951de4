/** Batch rename previews of one directory, for files and for directories: the approved rows can be
    carried out in any order. */
module BatchRename {
  import opened Names
  import opened Wrappers

  datatype Mode = ReplaceName | ReplaceSuffix | AddPrefix | AddSuffix

  // ----- the new name

  predicate StartsWith(s: string, find: string) {
    find <= s
  }

  predicate EndsWith(s: string, find: string) {
    |find| <= |s| && s[|s| - |find|..] == find
  }

  /** Every occurrence, from the left, without overlaps. */
  function Replace(s: string, find: string, value: string): string
    requires find != ""
  {
    if s == "" then ""
    else if StartsWith(s, find) then value + Replace(s[|find|..], find, value)
    else [s[0]] + Replace(s[1..], find, value)
  }

  function LastDot(name: string): int {
    if name == "" then -1 else if name[|name| - 1] == '.' then |name| - 1 else LastDot(name[..|name| - 1])
  }

  /** From the last dot, unless it is the first or the last character. */
  function Suffix(name: string): (r: string)
    ensures EndsWith(name, r)
  {
    var i := LastDot(name);
    if 0 < i < |name| - 1 then name[i..] else ""
  }

  function Changed(stem: string, mode: Mode, find: string, value: string): string
    requires mode == ReplaceName ==> find != ""
  {
    match mode
    case ReplaceName => Replace(stem, find, value)
    case ReplaceSuffix => if EndsWith(stem, find) then stem[..|stem| - |find|] + value else stem
    case AddPrefix => value + stem
    case AddSuffix => stem + value
  }

  function UpdatedName(name: string, mode: Mode, find: string, value: string, keepExtension: bool): string
    requires mode == ReplaceName ==> find != ""
  {
    var extension := if keepExtension then Suffix(name) else "";
    Changed(name[..|name| - |extension|], mode, find, value) + extension
  }

  lemma {:induction false} LastDotIs(name: string)
    ensures -1 <= LastDot(name) < |name|
    ensures LastDot(name) >= 0 ==> name[LastDot(name)] == '.'
    ensures forall i :: LastDot(name) < i < |name| ==> name[i] != '.'
  {
    if name != "" {
      LastDotIs(name[..|name| - 1]);
    }
  }

  /** A kept extension is still the extension of the new name exactly when something stands before it. */
  lemma ExtensionKept(name: string, mode: Mode, find: string, value: string)
    requires mode == ReplaceName ==> find != ""
    requires Suffix(name) != ""
    ensures var stem := name[..|name| - |Suffix(name)|];
            Suffix(UpdatedName(name, mode, find, value, true)) == Suffix(name) <==>
                Changed(stem, mode, find, value) != ""
  {
    hide Changed;
    var extension := Suffix(name);
    var changed := Changed(name[..|name| - |extension|], mode, find, value);
    LastDotIs(name);
    LastDotIs(changed + extension);
    assert extension[0] == '.' && forall i :: 0 < i < |extension| ==> extension[i] != '.';
    assert (changed + extension)[|changed|] == '.';
    assert forall i :: |changed| < i < |changed + extension| ==> (changed + extension)[i] == extension[i - |changed|];
    assert LastDot(changed + extension) == |changed|;
    assert (changed + extension)[|changed|..] == extension;
  }

  ghost predicate Occurs(s: string, find: string) {
    exists i: nat :: i <= |s| && StartsWith(s[i..], find)
  }

  lemma OccursLater(s: string, find: string)
    requires s != "" && Occurs(s[1..], find)
    ensures Occurs(s, find)
  {
    var i: nat :| i <= |s[1..]| && StartsWith(s[1..][i..], find);
    assert s[1..][i..] == s[i + 1..];
  }

  /** A literal that does not occur leaves the name alone. */
  lemma {:induction false} ReplaceNone(s: string, find: string, value: string)
    requires find != "" && !Occurs(s, find)
    ensures Replace(s, find, value) == s
  {
    if s != "" {
      assert s[0..] == s;
      if Occurs(s[1..], find) {
        OccursLater(s, find);
      }
      ReplaceNone(s[1..], find, value);
    }
  }

  /** The parts with the separator between them. */
  function Between(parts: seq<string>, separator: string): string {
    if parts == [] then "" else if |parts| == 1 then parts[0] else parts[0] + separator + Between(parts[1..], separator)
  }

  /** The literal stands between the parts and, from the left, nowhere before. */
  ghost predicate CutAt(parts: seq<string>, find: string) {
    && parts != [] && !Occurs(parts[|parts| - 1], find)
    && forall i, k :: 0 <= i < |parts| - 1 && 0 <= k < |parts[i]| ==> !StartsWith((parts[i] + find)[k..], find)
  }

  /** Replacing a literal: the name is cut at its occurrences, from the left, and joined by the value. */
  lemma {:induction false} ReplaceJoins(s: string, find: string, value: string) returns (parts: seq<string>)
    requires find != ""
    ensures CutAt(parts, find) && Between(parts, find) == s && Between(parts, value) == Replace(s, find, value)
    decreases |s|
  {
    hide CutAt, Between;
    if s == "" {
      parts := [""];
      OnePart(find);
    } else if StartsWith(s, find) {
      var rest := ReplaceJoins(s[|find|..], find, value);
      parts := [""] + rest;
      EmptyPart(rest, find, find);
      EmptyPart(rest, find, value);
      assert s == find + s[|find|..];
    } else {
      var rest := ReplaceJoins(s[1..], find, value);
      SomePart(rest, find);
      parts := [[s[0]] + rest[0]] + rest[1..];
      CutLater(s, find, rest, parts);
      BetweenFirst(s[0], rest, find);
      BetweenFirst(s[0], rest, value);
    }
  }

  lemma OnePart(find: string)
    requires find != ""
    ensures CutAt([""], find) && forall separator :: Between([""], separator) == ""
  {
  }

  lemma SomePart(parts: seq<string>, find: string)
    requires CutAt(parts, find)
    ensures parts != []
  {
  }

  lemma EmptyPart(rest: seq<string>, find: string, separator: string)
    requires CutAt(rest, find)
    ensures CutAt([""] + rest, find) && Between([""] + rest, separator) == separator + Between(rest, separator)
  {
    assert ([""] + rest)[1..] == rest;
    assert "" + separator == separator;
  }

  lemma BetweenFirst(c: char, rest: seq<string>, separator: string)
    requires rest != []
    ensures Between([[c] + rest[0]] + rest[1..], separator) == [c] + Between(rest, separator)
  {
    assert ([[c] + rest[0]] + rest[1..])[1..] == rest[1..];
  }

  /** A character at which the literal does not start joins the first part. */
  lemma CutLater(s: string, find: string, rest: seq<string>, parts: seq<string>)
    requires s != "" && !StartsWith(s, find) && CutAt(rest, find) && Between(rest, find) == s[1..]
    requires parts == [[s[0]] + rest[0]] + rest[1..]
    ensures CutAt(parts, find)
  {
    assert s == [s[0]] + s[1..];
    if |rest| == 1 {
      assert parts[0] == s;
      OccursFrom(s, find);
    } else {
      forall i, k | 0 <= i < |parts| - 1 && 0 <= k < |parts[i]|
        ensures !StartsWith((parts[i] + find)[k..], find)
      {
        if i == 0 {
          FirstPart(s, find, rest, k);
        } else {
          assert parts[i] == rest[i];
        }
      }
    }
  }

  lemma OccursFrom(s: string, find: string)
    requires s != ""
    ensures Occurs(s, find) ==> StartsWith(s, find) || Occurs(s[1..], find)
  {
    if Occurs(s, find) {
      var i: nat :| i <= |s| && StartsWith(s[i..], find);
      if i == 0 {
        assert s[0..] == s;
      } else {
        assert s[1..][i - 1..] == s[i..];
      }
    }
  }

  lemma FirstPart(s: string, find: string, rest: seq<string>, k: nat)
    requires s != "" && !StartsWith(s, find) && CutAt(rest, find) && Between(rest, find) == s[1..] && |rest| > 1
    requires k < 1 + |rest[0]|
    ensures !StartsWith(([s[0]] + rest[0] + find)[k..], find)
  {
    var part := [s[0]] + rest[0];
    if k == 0 {
      assert s == (part + find) + Between(rest[1..], find);
      assert (part + find)[0..] == part + find;
      assert s[..|find|] == (part + find)[..|find|];
    } else {
      assert (part + find)[k..] == (rest[0] + find)[k - 1..];
    }
  }

  /** The extension is what follows the last dot, with it, when something stands on both sides. */
  lemma SuffixExactly(stem: string, extension: string)
    ensures extension != "" ==> (
      Suffix(stem + extension) == extension <==>
        stem != "" && |extension| > 1 && extension[0] == '.' && forall i :: 0 < i < |extension| ==> extension[i] != '.')
    ensures Suffix(stem) == "" <==> (forall i :: 0 < i < |stem| - 1 && stem[i] == '.' ==> '.' in stem[i + 1..])
                                    || (stem != "" && stem[|stem| - 1] == '.')
  {
    SuffixFound(stem, extension);
    SuffixNone(stem);
  }

  lemma SuffixFound(stem: string, extension: string)
    ensures extension != "" ==> (
      Suffix(stem + extension) == extension <==>
        stem != "" && |extension| > 1 && extension[0] == '.' && forall i :: 0 < i < |extension| ==> extension[i] != '.')
  {
    var name := stem + extension;
    LastDotIs(name);
    if extension != "" {
      assert forall i :: 0 <= i < |extension| ==> name[|stem| + i] == extension[i];
      assert name[|stem|..] == extension;
    }
  }

  lemma SuffixNone(name: string)
    ensures Suffix(name) == "" <==> (forall i :: 0 < i < |name| - 1 && name[i] == '.' ==> '.' in name[i + 1..])
                                    || (name != "" && name[|name| - 1] == '.')
  {
    LastDotIs(name);
    var d := LastDot(name);
    forall i | 0 <= i < d && name[i] == '.' ensures name[d] in name[i + 1..] {
      assert name[i + 1..][d - i - 1] == name[d];
    }
  }

  /** What each mode makes of a name: the stem changes, a kept extension stays at the end. */
  lemma NewNames(stem: string, extension: string, find: string, value: string, keep: bool)
    requires extension == if keep then Suffix(stem + extension) else ""
    ensures UpdatedName(stem + extension, AddPrefix, find, value, keep) == value + stem + extension
    ensures UpdatedName(stem + extension, AddSuffix, find, value, keep) == stem + value + extension
    ensures forall base :: stem == base + find ==>
      UpdatedName(stem + extension, ReplaceSuffix, find, value, keep) == base + value + extension
    ensures (forall base :: stem != base + find) ==>
      UpdatedName(stem + extension, ReplaceSuffix, find, value, keep) == stem + extension
    ensures find != "" ==> exists parts :: (
      && CutAt(parts, find) && Between(parts, find) == stem
      && UpdatedName(stem + extension, ReplaceName, find, value, keep) == Between(parts, value) + extension)
  {
    hide CutAt, Between, Replace, Suffix;
    assert (stem + extension)[..|stem|] == stem;
    forall base | stem == base + find
      ensures UpdatedName(stem + extension, ReplaceSuffix, find, value, keep) == base + value + extension
    {
      assert stem[..|stem| - |find|] == base && EndsWith(stem, find);
    }
    assert EndsWith(stem, find) ==> stem == stem[..|stem| - |find|] + find;
    if find != "" {
      var parts := ReplaceJoins(stem, find, value);
    }
  }

  // ----- the preview

  /** What the scan sees of one name: its kind, and whether a later look finds it unchanged. */
  datatype Entry = Entry(candidate: bool, steady: bool)

  datatype Reason = InvalidName | NotAllowed | Collision | Taken | SourceChanged

  datatype Row = Row(source: string, target: string, conflict: Option<Reason>)

  datatype Request = Request(mode: Mode, find: string, value: string, keepExtension: bool)

  datatype Refusal = EmptyFind | EmptyValue | TooLong | TooMany

  const MAX_TEXT := 255
  const MAX_ENTRIES := 50000

  function Check(q: Request): Option<Refusal> {
    if (q.mode == ReplaceName || q.mode == ReplaceSuffix) && q.find == "" then Some(EmptyFind)
    else if (q.mode == AddPrefix || q.mode == AddSuffix) && q.value == "" then Some(EmptyValue)
    else if |q.find| > MAX_TEXT || |q.value| > MAX_TEXT then Some(TooLong)
    else None
  }

  predicate ValidName(name: string) {
    name !in {"", ".", ".."} && forall c | c in name :: c != '/' && c != '\\' && c != '\0'
  }

  function Candidates(dir: map<string, Entry>): set<string> {
    set n | n in dir && dir[n].candidate
  }

  /** No name that `canon` takes for `name`. */
  predicate Free(name: string, names: set<string>, canon: string -> string) {
    forall n | n in names :: canon(n) != canon(name)
  }

  /** Names of the directory as its filesystem tells them apart: `canon` is the identity, or folds case. */
  datatype Checks = Checks(fold: string -> string, canon: string -> string, allowed: string -> bool)

  /** The verdict on one file: the folded target must be new among all names and all earlier targets. */
  function FileVerdict(name: string, target: string, dir: map<string, Entry>, k: Checks,
                       proposed: set<string>): Option<Reason>
    requires name in dir
  {
    if !ValidName(target) then Some(InvalidName)
    else if !k.allowed(target) then Some(NotAllowed)
    else if k.fold(target) in proposed || !Free(target, dir.Keys, k.fold) then Some(Collision)
    else if !dir[name].steady then Some(SourceChanged)
    else None
  }

  /** The verdict on one directory: earlier targets are compared folded, existing names by asking the
      filesystem. */
  function DirectoryVerdict(name: string, target: string, dir: map<string, Entry>, k: Checks,
                            proposed: set<string>): Option<Reason>
    requires name in dir
  {
    if !ValidName(target) then Some(InvalidName)
    else if !k.allowed(target) then Some(NotAllowed)
    else if k.fold(target) in proposed then Some(Collision)
    else if !Free(target, dir.Keys, k.canon) then Some(Taken)
    else if !dir[name].steady then Some(SourceChanged)
    else None
  }

  function Verdict(files: bool, name: string, target: string, dir: map<string, Entry>, k: Checks,
                   proposed: set<string>): Option<Reason>
    requires name in dir
  {
    if files then FileVerdict(name, target, dir, k, proposed) else DirectoryVerdict(name, target, dir, k, proposed)
  }

  function TargetOf(name: string, q: Request, files: bool): string
    requires Check(q).None?
  {
    UpdatedName(name, q.mode, q.find, q.value, files && q.keepExtension)
  }

  /** The extension is kept for files that ask for it, never for directories. */
  lemma TargetNames(name: string, q: Request)
    requires Check(q).None?
    ensures TargetOf(name, q, false) == UpdatedName(name, q.mode, q.find, q.value, false)
    ensures TargetOf(name, q, true) == UpdatedName(name, q.mode, q.find, q.value, q.keepExtension)
  {
  }

  /** The rows of the first `n` candidates. */
  function Rows(names: seq<string>, n: nat, dir: map<string, Entry>, q: Request, files: bool, k: Checks): seq<Row>
    requires n <= |names| && Check(q).None? && forall s :: s in names ==> s in dir
  {
    if n == 0 then []
    else
      var before := Rows(names, n - 1, dir, q, files, k);
      var target := TargetOf(names[n - 1], q, files);
      if target == names[n - 1] then before
      else before + [Row(names[n - 1], target, Verdict(files, names[n - 1], target, dir, k, Proposed(before, k.fold)))]
  }

  /** The folded targets of the approved rows. */
  function Proposed(rows: seq<Row>, fold: string -> string): set<string> {
    set r | r in rows && r.conflict.None? :: fold(r.target)
  }

  /** Too many entries: of any kind for files, of subdirectories for directories. */
  predicate TooManyIn(dir: map<string, Entry>, files: bool) {
    if files then |dir| > MAX_ENTRIES else |Candidates(dir)| > MAX_ENTRIES
  }

  method Preview(dir: map<string, Entry>, q: Request, files: bool, k: Checks) returns (r: Result<seq<Row>, Refusal>)
    ensures r == Err(EmptyFind) <==> q.mode in {ReplaceName, ReplaceSuffix} && q.find == ""
    ensures r == Err(EmptyValue) <==> q.mode in {AddPrefix, AddSuffix} && q.value == ""
    ensures r == Err(TooLong) <==>
      (q.mode in {ReplaceName, ReplaceSuffix} ==> q.find != "") && (q.mode in {AddPrefix, AddSuffix} ==> q.value != "")
      && (|q.find| > 255 || |q.value| > 255)
    ensures r == Err(TooMany) <==>
      Check(q).None? && (if files then |dir| else |Candidates(dir)|) > 50_000
    ensures Check(q).Some? ==> r == Err(Check(q).value)
    ensures Check(q).None? && TooManyIn(dir, files) ==> r == Err(TooMany)
    ensures Check(q).None? && !TooManyIn(dir, files) ==>
              var names := Ordered(Candidates(dir)); r == Ok(Rows(names, |names|, dir, q, files, k))
  {
    var refusal := Check(q);
    if refusal.Some? {
      return Err(refusal.value);
    }
    if TooManyIn(dir, files) {
      return Err(TooMany);
    }
    var rows := CandidateRows(Ordered(Candidates(dir)), dir, q, files, k);
    return Ok(rows);
  }

  /** One row for each candidate whose name changes, with the folded targets approved so far at hand. */
  method CandidateRows(names: seq<string>, dir: map<string, Entry>, q: Request, files: bool, k: Checks)
    returns (rows: seq<Row>)
    requires Check(q).None? && forall s :: s in names ==> s in dir
    ensures rows == Rows(names, |names|, dir, q, files, k)
  {
    hide Verdict, TargetOf, Check, Rows, Proposed;
    RowsNone(names, dir, q, files, k);
    rows := [];
    var proposed: set<string> := {};
    for n := 0 to |names|
      invariant rows == Rows(names, n, dir, q, files, k) && proposed == Proposed(rows, k.fold)
    {
      RowsStep(names, n, dir, q, files, k);
      var name := names[n];
      var target := TargetOf(name, q, files);
      if target != name {
        var conflict := Verdict(files, name, target, dir, k, proposed);
        var row := Row(name, target, conflict);
        ProposedSnoc(rows, row, k.fold);
        if conflict.None? {
          proposed := proposed + {k.fold(target)};
        }
        rows := rows + [row];
      }
    }
  }

  lemma RowsNone(names: seq<string>, dir: map<string, Entry>, q: Request, files: bool, k: Checks)
    requires Check(q).None? && forall s :: s in names ==> s in dir
    ensures Rows(names, 0, dir, q, files, k) == [] && Proposed([], k.fold) == {}
  {
  }

  lemma RowsStep(names: seq<string>, n: nat, dir: map<string, Entry>, q: Request, files: bool, k: Checks)
    requires n < |names| && Check(q).None? && forall s :: s in names ==> s in dir
    ensures var before, target := Rows(names, n, dir, q, files, k), TargetOf(names[n], q, files);
            Rows(names, n + 1, dir, q, files, k)
            == if target == names[n] then before
               else before + [Row(names[n], target, Verdict(files, names[n], target, dir, k, Proposed(before, k.fold)))]
  {
    hide Verdict, TargetOf, Check, Proposed;
  }

  lemma ProposedSnoc(rows: seq<Row>, row: Row, fold: string -> string)
    ensures Proposed(rows + [row], fold) == Proposed(rows, fold) + if row.conflict.None? then {fold(row.target)} else {}
  {
  }

  // ----- what the approved rows promise

  /** A row that can follow the rows before it in a directory of `names` told apart by `canon`. */
  ghost predicate Fits(before: seq<Row>, row: Row, names: set<string>, canon: string -> string) {
    && row.source in names
    && Free(row.target, names, canon)
    && forall r :: r in before ==> r.source != row.source && canon(r.target) != canon(row.target)
  }

  /** Rows whose sources exist and are distinct, and whose targets are free and distinct. */
  ghost predicate Harmless(rows: seq<Row>, names: set<string>, canon: string -> string) {
    rows == [] ||
    (Harmless(rows[..|rows| - 1], names, canon) && Fits(rows[..|rows| - 1], rows[|rows| - 1], names, canon))
  }

  lemma HarmlessSnoc(before: seq<Row>, row: Row, names: set<string>, canon: string -> string)
    ensures Harmless(before + [row], names, canon) <==>
        Harmless(before, names, canon) && Fits(before, row, names, canon)
  {
    assert (before + [row])[..|before|] == before;
  }

  function Approved(rows: seq<Row>): seq<Row> {
    if rows == [] then []
    else Approved(rows[..|rows| - 1]) + (if rows[|rows| - 1].conflict.None? then [rows[|rows| - 1]] else [])
  }

  lemma {:induction false} ApprovedAre(rows: seq<Row>)
    ensures forall r :: r in Approved(rows) <==> r in rows && r.conflict.None?
  {
    if rows != [] {
      ApprovedAre(rows[..|rows| - 1]);
      assert rows == rows[..|rows| - 1] + [rows[|rows| - 1]];
    }
  }

  /** Sources come in order of their names, once each. */
  lemma {:induction false} RowsSources(names: seq<string>, n: nat, dir: map<string, Entry>, q: Request,
                                       files: bool, k: Checks)
    requires n <= |names| && Check(q).None? && forall s :: s in names ==> s in dir
    ensures forall r :: r in Rows(names, n, dir, q, files, k) ==> r.source in names[..n] && r.target != r.source
  {
    hide Verdict, TargetOf, Check;
    if n > 0 {
      RowsSources(names, n - 1, dir, q, files, k);
      assert names[..n] == names[..n - 1] + [names[n - 1]];
    }
  }

  /** The filesystem does not tell apart fewer names than folding does. */
  ghost predicate FinerThan(canon: string -> string, fold: string -> string) {
    forall a, b :: canon(a) == canon(b) ==> fold(a) == fold(b)
  }

  /** What the verdict of one row says. */
  lemma VerdictMeans(files: bool, name: string, target: string, dir: map<string, Entry>, k: Checks,
                     proposed: set<string>, canon: string -> string)
    requires name in dir && FinerThan(canon, k.fold) && (canon == k.canon || files)
    requires Verdict(files, name, target, dir, k, proposed).None?
    ensures k.fold(target) !in proposed
    ensures Free(target, dir.Keys, canon) && (files ==> Free(target, dir.Keys, k.fold))
    ensures target !in {"", ".", ".."} && '/' !in target && '\\' !in target && '\0' !in target
    ensures k.allowed(target) && dir[name].steady
  {
  }

  /** Why a row is refused: the first of these that applies. Files and directories differ in what counts as
      taken, and in what that is called. */
  lemma VerdictExactly(files: bool, name: string, target: string, dir: map<string, Entry>, k: Checks,
                       proposed: set<string>)
    requires name in dir
    ensures var bad := target in {"", ".", ".."} || '/' in target || '\\' in target || '\0' in target;
            var wanted := k.fold(target) in proposed;
            var taken := exists n :: n in dir && if files then k.fold(n) == k.fold(target)
                else k.canon(n) == k.canon(target);
            var v := Verdict(files, name, target, dir, k, proposed);
            && (v == Some(InvalidName) <==> bad)
            && (v == Some(NotAllowed) <==> !bad && !k.allowed(target))
            && (v == Some(Collision) <==> !bad && k.allowed(target) && (wanted || (files && taken)))
            && (v == Some(Taken) <==> !bad && k.allowed(target) && !wanted && !files && taken)
            && (v == Some(SourceChanged) <==> !bad && k.allowed(target) && !wanted && !taken && !dir[name].steady)
            && (v.None? <==> !bad && k.allowed(target) && !wanted && !taken && dir[name].steady)
  {
  }

  /** Filesystems that tell case apart and those that fold it both qualify. */
  lemma BothKindsQualify(fold: string -> string)
    ensures FinerThan(s => s, fold) && FinerThan(fold, fold)
  {
  }

  lemma {:induction false} RowsHarmless(names: seq<string>, n: nat, dir: map<string, Entry>, q: Request,
                                        files: bool, k: Checks, canon: string -> string)
    requires n <= |names| && Check(q).None? && Ascending(names) && forall s :: s in names ==> s in dir
    requires FinerThan(canon, k.fold) && (canon == k.canon || files)
    ensures Harmless(Approved(Rows(names, n, dir, q, files, k)), dir.Keys, canon)
  {
    hide Verdict, TargetOf, Check, FinerThan, ValidName, Ascending, Harmless, Fits, Proposed;
    if n > 0 {
      var before, name := Rows(names, n - 1, dir, q, files, k), names[n - 1];
      var target := TargetOf(name, q, files);
      RowsHarmless(names, n - 1, dir, q, files, k, canon);
      if target != name {
        var row := Row(name, target, Verdict(files, name, target, dir, k, Proposed(before, k.fold)));
        assert (before + [row])[..|before|] == before;
        if row.conflict.None? {
          VerdictMeans(files, name, target, dir, k, Proposed(before, k.fold), canon);
          NewRow(names, n, dir, q, files, k, canon, before, row);
          HarmlessSnoc(Approved(before), row, dir.Keys, canon);
        } else {
          assert Approved(before + [row]) == Approved(before);
        }
      }
    } else {
      assert Harmless([], dir.Keys, canon) by {
        NoRows(dir.Keys, canon);
      }
    }
  }

  lemma NoRows(names: set<string>, canon: string -> string)
    ensures Harmless([], names, canon)
  {
  }

  /** The row added last differs from every earlier approved row. */
  lemma NewRow(names: seq<string>, n: nat, dir: map<string, Entry>, q: Request, files: bool, k: Checks,
               canon: string -> string,
               before: seq<Row>, row: Row)
    requires 0 < n <= |names| && Check(q).None? && Ascending(names) && forall s :: s in names ==> s in dir
    requires before == Rows(names, n - 1, dir, q, files, k) && row.source == names[n - 1]
    requires k.fold(row.target) !in Proposed(before, k.fold) && FinerThan(canon, k.fold)
        && Free(row.target, dir.Keys, canon)
    ensures Fits(Approved(before), row, dir.Keys, canon)
  {
    hide Rows, Check;
    RowsSources(names, n - 1, dir, q, files, k);
    AscendingDistinct(names);
    ApprovedAre(before);
    forall r | r in Approved(before) ensures r.source != row.source && canon(r.target) != canon(row.target) {
      assert r in before && r.conflict.None?;
      assert k.fold(r.target) in Proposed(before, k.fold);
    }
  }

  /** Approved file rows are harmless on any filesystem that tells apart at least what case folding does,
      approved directory rows on the filesystem that was asked. */
  lemma PreviewHarmless(dir: map<string, Entry>, q: Request, files: bool, k: Checks, canon: string -> string)
    requires Check(q).None? && FinerThan(canon, k.fold) && (canon == k.canon || files)
    ensures var names := Ordered(Candidates(dir));
            Harmless(Approved(Rows(names, |names|, dir, q, files, k)), dir.Keys, canon)
  {
    var names := Ordered(Candidates(dir));
    RowsHarmless(names, |names|, dir, q, files, k, canon);
  }

  /** Nothing is left out or refused without a reason: every candidate whose name changes has a row, and
      the row is approved when the target is valid, allowed and free, the source unchanged, and no other
      row wants a target that folds the same. */
  lemma {:induction false} PreviewComplete(names: seq<string>, n: nat, dir: map<string, Entry>, q: Request,
                                           files: bool, k: Checks, i: nat)
    requires i < n <= |names| && Check(q).None? && forall s :: s in names ==> s in dir
    requires TargetOf(names[i], q, files) != names[i]
    ensures exists r ::
      r in Rows(names, n, dir, q, files, k) && r.source == names[i] && r.target == TargetOf(names[i], q, files)
      && (r.conflict.None? || Refusable(names, n, dir, q, files, k, i))
  {
    hide Verdict, TargetOf, Check, Refusable;
    if i == n - 1 {
      var before := Rows(names, i, dir, q, files, k);
      var target := TargetOf(names[i], q, files);
      var r := Row(names[i], target, Verdict(files, names[i], target, dir, k, Proposed(before, k.fold)));
      assert r in Rows(names, n, dir, q, files, k);
      if r.conflict.Some? {
        RefusedFor(names, n, dir, q, files, k);
      }
    } else {
      PreviewComplete(names, n - 1, dir, q, files, k, i);
      var r :| r in Rows(names, n - 1, dir, q, files, k) && r.source == names[i]
          && r.target == TargetOf(names[i], q, files)
               && (r.conflict.None? || Refusable(names, n - 1, dir, q, files, k, i));
      assert r in Rows(names, n, dir, q, files, k);
      if r.conflict.Some? {
        RefusableLater(names, n, dir, q, files, k, i);
      }
    }
  }

  /** The reasons a row may be refused for. */
  ghost predicate Refusable(names: seq<string>, n: nat, dir: map<string, Entry>, q: Request, files: bool,
                            k: Checks, i: nat)
    requires i < n <= |names| && Check(q).None? && forall s :: s in names ==> s in dir
  {
    var target := TargetOf(names[i], q, files);
    || target in {"", ".", ".."} || '/' in target || '\\' in target || '\0' in target
    || !k.allowed(target) || !dir[names[i]].steady
    || !Free(target, dir.Keys, if files then k.fold else k.canon)
    || exists j :: 0 <= j < n && j != i && k.fold(TargetOf(names[j], q, files)) == k.fold(target)
  }

  lemma RefusableLater(names: seq<string>, n: nat, dir: map<string, Entry>, q: Request, files: bool, k: Checks, i: nat)
    requires i < n - 1 && n <= |names| && Check(q).None? && forall s :: s in names ==> s in dir
    requires Refusable(names, n - 1, dir, q, files, k, i)
    ensures Refusable(names, n, dir, q, files, k, i)
  {
  }

  lemma RefusedFor(names: seq<string>, n: nat, dir: map<string, Entry>, q: Request, files: bool, k: Checks)
    requires 0 < n <= |names| && Check(q).None? && forall s :: s in names ==> s in dir
    requires var target := TargetOf(names[n - 1], q, files);
             Verdict(files, names[n - 1], target, dir, k, Proposed(Rows(names, n - 1, dir, q, files, k), k.fold)).Some?
    ensures Refusable(names, n, dir, q, files, k, n - 1)
  {
    hide TargetOf, Check, Rows;
    var before, target := Rows(names, n - 1, dir, q, files, k), TargetOf(names[n - 1], q, files);
    if k.fold(target) in Proposed(before, k.fold) {
      var r :| r in before && r.conflict.None? && k.fold(r.target) == k.fold(target);
      RowTarget(names, n - 1, dir, q, files, k, r);
      var j :| 0 <= j < n - 1 && r.target == TargetOf(names[j], q, files);
      assert k.fold(TargetOf(names[j], q, files)) == k.fold(target);
    }
  }

  lemma {:induction false} RowTarget(names: seq<string>, n: nat, dir: map<string, Entry>, q: Request, files: bool,
                                     k: Checks, r: Row)
    requires n <= |names| && Check(q).None? && (forall s :: s in names ==> s in dir)
        && r in Rows(names, n, dir, q, files, k)
    ensures exists j :: 0 <= j < n && r.target == TargetOf(names[j], q, files)
  {
    hide TargetOf, Check, Verdict;
    if r in Rows(names, n - 1, dir, q, files, k) {
      RowTarget(names, n - 1, dir, q, files, k, r);
    } else {
      assert r.target == TargetOf(names[n - 1], q, files);
    }
  }

  // ----- carrying the rows out

  /** A no-replace rename; nothing when the source is missing or a name the filesystem cannot tell from
      the target is there. */
  function Apply(ns: map<string, nat>, row: Row, canon: string -> string): Option<map<string, nat>> {
    if row.source !in ns || !Free(row.target, ns.Keys, canon) then None
    else Some((ns - {row.source})[row.target := ns[row.source]])
  }

  function ApplyAll(ns: map<string, nat>, rows: seq<Row>, canon: string -> string): Option<map<string, nat>> {
    if rows == [] then Some(ns)
    else match ApplyAll(ns, rows[..|rows| - 1], canon)
      case None => None
      case Some(m) => Apply(m, rows[|rows| - 1], canon)
  }

  ghost predicate IsSource(rows: seq<Row>, n: string) {
    exists r :: r in rows && r.source == n
  }

  ghost predicate IsTarget(rows: seq<Row>, n: string) {
    exists r :: r in rows && r.target == n
  }

  ghost predicate OthersStay(ns: map<string, nat>, rows: seq<Row>, ns': map<string, nat>) {
    && (forall n :: n in ns' <==> (n in ns && !IsSource(rows, n)) || IsTarget(rows, n))
    && (forall n :: n in ns && !IsSource(rows, n) && n in ns' ==> ns'[n] == ns[n])
  }

  /** The namespace with every source under its target: a function of which rows there are, not of
      their order. */
  ghost predicate Renamed(ns: map<string, nat>, rows: seq<Row>, ns': map<string, nat>) {
    && OthersStay(ns, rows, ns')
    && (forall r :: r in rows ==> r.source in ns && r.target in ns' && ns'[r.target] == ns[r.source])
  }

  /** Harmless rows succeed one after the other. */
  lemma {:induction false} AllSucceed(ns: map<string, nat>, rows: seq<Row>, canon: string -> string)
    requires Harmless(rows, ns.Keys, canon)
    ensures ApplyAll(ns, rows, canon).Some? && Renamed(ns, rows, ApplyAll(ns, rows, canon).value)
    ensures forall r :: r in rows ==> r.source in ns && Free(r.target, ns.Keys, canon)
  {
    hide Renamed, Apply, Fits;
    if rows != [] {
      var n := |rows| - 1;
      var before, row := rows[..n], rows[n];
      AllSucceed(ns, before, canon);
      assert rows == before + [row];
      FitsMeans(before, row, ns.Keys, canon);
      NextSucceeds(ns, before, row, ApplyAll(ns, before, canon).value, canon);
    } else {
      RenamedNone(ns);
    }
  }

  lemma RenamedNone(ns: map<string, nat>)
    ensures Renamed(ns, [], ns)
  {
  }

  lemma FitsMeans(before: seq<Row>, row: Row, names: set<string>, canon: string -> string)
    requires Fits(before, row, names, canon)
    ensures row.source in names && Free(row.target, names, canon) && row.target !in names
  {
  }

  lemma NextSucceeds(ns: map<string, nat>, before: seq<Row>, row: Row, m: map<string, nat>, canon: string -> string)
    requires Fits(before, row, ns.Keys, canon) && Renamed(ns, before, m)
    requires forall r :: r in before ==> r.source in ns && Free(r.target, ns.Keys, canon)
    ensures Apply(m, row, canon).Some? && Renamed(ns, before + [row], Apply(m, row, canon).value)
  {
    TargetFree(ns, before, row, m, canon);
    SourceThere(ns, before, row, m, canon);
    SnocRenamed(ns, before, row, m);
  }

  lemma TargetFree(ns: map<string, nat>, before: seq<Row>, row: Row, m: map<string, nat>, canon: string -> string)
    requires Fits(before, row, ns.Keys, canon) && Renamed(ns, before, m)
    ensures Free(row.target, m.Keys, canon)
  {
    forall n | n in m.Keys ensures canon(n) != canon(row.target) {
      if IsTarget(before, n) {
        var r :| r in before && r.target == n;
      } else {
        assert n in ns.Keys;
      }
    }
  }

  lemma SourceThere(ns: map<string, nat>, before: seq<Row>, row: Row, m: map<string, nat>, canon: string -> string)
    requires Fits(before, row, ns.Keys, canon) && Renamed(ns, before, m)
    requires forall r :: r in before ==> r.source in ns && Free(r.target, ns.Keys, canon)
    ensures row.source in m && m[row.source] == ns[row.source]
    ensures !IsSource(before, row.source) && !IsTarget(before, row.source) && !IsTarget(before, row.target)
    ensures row.target !in ns && row.target !in m
  {
  }

  lemma SnocRenamed(ns: map<string, nat>, before: seq<Row>, row: Row, m: map<string, nat>)
    requires Renamed(ns, before, m) && row.source in ns && row.source in m && m[row.source] == ns[row.source]
    requires !IsTarget(before, row.source) && row.target !in ns && row.target !in m
    ensures Renamed(ns, before + [row], (m - {row.source})[row.target := m[row.source]])
  {
    hide OthersStay;
    SnocMoves(ns, before, row, m);
    SnocStay(ns, before, row, m);
  }

  lemma SnocStay(ns: map<string, nat>, before: seq<Row>, row: Row, m: map<string, nat>)
    requires OthersStay(ns, before, m) && row.source in ns && row.source in m && m[row.source] == ns[row.source]
    requires !IsTarget(before, row.source) && row.target !in ns && row.target !in m
    ensures OthersStay(ns, before + [row], (m - {row.source})[row.target := m[row.source]])
  {
    var rows, m' := before + [row], (m - {row.source})[row.target := m[row.source]];
    forall n
      ensures n in m' <==> (n in ns && !IsSource(rows, n)) || IsTarget(rows, n)
      ensures n in ns && !IsSource(rows, n) && n in m' ==> m'[n] == ns[n]
    {
      SourceSnocAt(before, row, n);
      hide IsSource, IsTarget;
    }
  }

  lemma SnocMoves(ns: map<string, nat>, before: seq<Row>, row: Row, m: map<string, nat>)
    requires Renamed(ns, before, m) && row.source in ns && row.source in m && m[row.source] == ns[row.source]
    requires !IsTarget(before, row.source) && row.target !in m
    ensures var m' := (m - {row.source})[row.target := m[row.source]];
            forall r :: r in before + [row] ==> r.source in ns && r.target in m' && m'[r.target] == ns[r.source]
  {
    hide IsSource, IsTarget;
    var m' := (m - {row.source})[row.target := m[row.source]];
    forall r | r in before + [row] ensures r.source in ns && r.target in m' && m'[r.target] == ns[r.source] {
      if r in before {
        TargetIs(before, r);
      } else {
        assert r == row;
      }
    }
  }

  lemma TargetIs(rows: seq<Row>, r: Row)
    requires r in rows
    ensures IsTarget(rows, r.target)
  {
  }

  lemma SourceSnocAt(before: seq<Row>, row: Row, n: string)
    ensures IsSource(before + [row], n) <==> IsSource(before, n) || n == row.source
    ensures IsTarget(before + [row], n) <==> IsTarget(before, n) || n == row.target
  {
    assert row in before + [row];
  }

  /** Two different harmless rows differ in source and in target. */
  lemma {:induction false} HarmlessPair(rows: seq<Row>, r: Row, r': Row, names: set<string>, canon: string -> string)
    requires Harmless(rows, names, canon) && r in rows && r' in rows && r != r'
    ensures r.source != r'.source && canon(r.target) != canon(r'.target)
  {
    var n := |rows| - 1;
    assert rows == rows[..n] + [rows[n]];
    if r in rows[..n] && r' in rows[..n] {
      HarmlessPair(rows[..n], r, r', names, canon);
    }
  }

  lemma {:induction false} HarmlessEach(rows: seq<Row>, r: Row, names: set<string>, canon: string -> string)
    requires Harmless(rows, names, canon) && r in rows
    ensures r.source in names && Free(r.target, names, canon)
  {
    var n := |rows| - 1;
    assert rows == rows[..n] + [rows[n]];
    if r in rows[..n] {
      HarmlessEach(rows[..n], r, names, canon);
    }
  }

  /** Harmless rows may be taken in any order and any number. */
  lemma {:induction false} HarmlessAnyOrder(rows: seq<Row>, order: seq<Row>, names: set<string>,
                                            canon: string -> string)
    requires Harmless(rows, names, canon)
    requires forall r :: r in order ==> r in rows
    requires forall i, j :: 0 <= i < j < |order| ==> order[i] != order[j]
    ensures Harmless(order, names, canon)
    decreases |order|
  {
    if order != [] {
      var n := |order| - 1;
      HarmlessAnyOrder(rows, order[..n], names, canon);
      HarmlessEach(rows, order[n], names, canon);
      forall r | r in order[..n] ensures r.source != order[n].source && canon(r.target) != canon(order[n].target) {
        HarmlessPair(rows, r, order[n], names, canon);
      }
      assert Fits(order[..n], order[n], names, canon);
    }
  }

  /** Any two orders of the same harmless rows succeed and end in the same namespace. */
  lemma OrdersAgree(ns: map<string, nat>, a: seq<Row>, b: seq<Row>, canon: string -> string)
    requires Harmless(a, ns.Keys, canon) && Harmless(b, ns.Keys, canon)
    requires forall r :: r in a <==> r in b
    ensures ApplyAll(ns, a, canon) == ApplyAll(ns, b, canon) && ApplyAll(ns, a, canon).Some?
  {
    AllSucceed(ns, a, canon);
    AllSucceed(ns, b, canon);
    RenamedOnce(ns, a, b, ApplyAll(ns, a, canon).value, ApplyAll(ns, b, canon).value);
  }

  lemma RenamedOnce(ns: map<string, nat>, a: seq<Row>, b: seq<Row>, m: map<string, nat>, m': map<string, nat>)
    requires forall r :: r in a <==> r in b
    requires Renamed(ns, a, m) && Renamed(ns, b, m')
    ensures m == m'
  {
    forall n ensures IsSource(a, n) <==> IsSource(b, n) {
    }
    forall n ensures IsTarget(a, n) <==> IsTarget(b, n) {
    }
    forall n | n in m ensures n in m' && m[n] == m'[n] {
      if IsTarget(a, n) {
        var r :| r in a && r.target == n;
        assert r in b && m[r.target] == ns[r.source] && m'[r.target] == ns[r.source];
      }
    }
  }

  /** Objects are neither lost nor made. */
  lemma ObjectsKept(ns: map<string, nat>, rows: seq<Row>, ns': map<string, nat>)
    requires Renamed(ns, rows, ns')
    ensures ns'.Values == ns.Values
  {
    forall id | id in ns.Values ensures id in ns'.Values {
      var n :| n in ns && ns[n] == id;
      if IsSource(rows, n) {
        var r :| r in rows && r.source == n;
        assert ns'[r.target] == id;
      } else {
        assert ns'[n] == id;
      }
    }
    forall id | id in ns'.Values ensures id in ns.Values {
      var n :| n in ns' && ns'[n] == id;
      if IsTarget(rows, n) {
        var r :| r in rows && r.target == n;
        assert ns[r.source] == id;
      } else {
        assert ns[n] == id;
      }
    }
  }

  function Swapped(row: Row): Row {
    Row(row.target, row.source, row.conflict)
  }

  function Reversed(rows: seq<Row>): seq<Row> {
    if rows == [] then [] else [Swapped(rows[|rows| - 1])] + Reversed(rows[..|rows| - 1])
  }

  lemma {:induction false} ApplySplit(ns: map<string, nat>, row: Row, rest: seq<Row>, canon: string -> string)
    requires Apply(ns, row, canon).Some?
    ensures ApplyAll(ns, [row] + rest, canon) == ApplyAll(Apply(ns, row, canon).value, rest, canon)
  {
    hide Apply;
    if rest == [] {
      assert [row] + rest == [row] && [row][..0] == [];
      assert ApplyAll(ns, [row][..0], canon) == Some(ns);
    } else {
      ApplySplit(ns, row, rest[..|rest| - 1], canon);
      assert ([row] + rest)[..|rest|] == [row] + rest[..|rest| - 1];
    }
  }

  /** The names of a directory are told apart by its filesystem. */
  ghost predicate ToldApart(ns: map<string, nat>, canon: string -> string) {
    forall a, b :: a in ns && b in ns && canon(a) == canon(b) ==> a == b
  }

  /** The rows backwards, each swapped, take the namespace back. */
  lemma {:induction false} ReversedRestores(ns: map<string, nat>, rows: seq<Row>, canon: string -> string)
    requires Harmless(rows, ns.Keys, canon) && ToldApart(ns, canon)
    ensures ApplyAll(ns, rows, canon).Some?
    ensures ApplyAll(ApplyAll(ns, rows, canon).value, Reversed(rows), canon) == Some(ns)
  {
    hide Apply, Fits, ToldApart, Renamed;
    AllSucceed(ns, rows, canon);
    if rows != [] {
      var n := |rows| - 1;
      var before, row := rows[..n], rows[n];
      assert rows == before + [row];
      AllSucceed(ns, before, canon);
      ReversedRestores(ns, before, canon);
      StepBack(ns, before, row, ApplyAll(ns, before, canon).value, canon);
      ApplySplit(ApplyAll(ns, rows, canon).value, Swapped(row), Reversed(before), canon);
    }
  }

  lemma StepBack(ns: map<string, nat>, before: seq<Row>, row: Row, m: map<string, nat>, canon: string -> string)
    requires Fits(before, row, ns.Keys, canon) && ToldApart(ns, canon) && Renamed(ns, before, m)
    requires forall r :: r in before ==> r.source in ns && Free(r.target, ns.Keys, canon)
    requires Apply(m, row, canon).Some?
    ensures Apply(Apply(m, row, canon).value, Swapped(row), canon) == Some(m)
  {
    SourceThere(ns, before, row, m, canon);
    SourceFree(ns, before, row, m, canon);
    hide Renamed, ToldApart, Fits;
    var m' := Apply(m, row, canon).value;
    assert (m' - {row.target})[row.source := m'[row.target]] == m;
  }

  /** The old name of a renamed source is free again. */
  lemma SourceFree(ns: map<string, nat>, before: seq<Row>, row: Row, m: map<string, nat>, canon: string -> string)
    requires Fits(before, row, ns.Keys, canon) && ToldApart(ns, canon) && Renamed(ns, before, m)
    requires forall r :: r in before ==> r.source in ns && Free(r.target, ns.Keys, canon)
    requires row.source in m
    ensures Free(row.source, ((m - {row.source})[row.target := m[row.source]]).Keys, canon)
  {
    var m' := (m - {row.source})[row.target := m[row.source]];
    forall n | n in m'.Keys ensures canon(n) != canon(row.source) {
      if n != row.target {
        assert n in m;
        if IsTarget(before, n) {
          var r :| r in before && r.target == n;
          assert Free(r.target, ns.Keys, canon);
        }
      }
    }
  }

  /** All of it, for the rows a preview approves: carried out one after the other in any order, any part
      of them, they succeed, lose nothing, come to the same end, and can be taken back. */
  lemma ApprovedCommute(dir: map<string, Entry>, q: Request, files: bool, k: Checks, canon: string -> string,
                        ns: map<string, nat>, a: seq<Row>, b: seq<Row>)
    requires Check(q).None? && FinerThan(canon, k.fold) && (canon == k.canon || files)
    requires ns.Keys == dir.Keys && ToldApart(ns, canon)
    requires var names := Ordered(Candidates(dir)); var rows := Rows(names, |names|, dir, q, files, k);
             forall r :: r in a ==> r in rows && r.conflict.None?
    requires (forall i, j :: 0 <= i < j < |a| ==> a[i] != a[j]) && (forall i, j :: 0 <= i < j < |b| ==> b[i] != b[j])
    requires forall r :: r in a <==> r in b
    ensures ApplyAll(ns, a, canon).Some? && ApplyAll(ns, a, canon) == ApplyAll(ns, b, canon)
    ensures ApplyAll(ns, a, canon).value.Values == ns.Values
    ensures ApplyAll(ApplyAll(ns, a, canon).value, Reversed(a), canon) == Some(ns)
  {
    var names := Ordered(Candidates(dir));
    var rows := Rows(names, |names|, dir, q, files, k);
    PreviewHarmless(dir, q, files, k, canon);
    ApprovedAre(rows);
    HarmlessAnyOrder(Approved(rows), a, ns.Keys, canon);
    HarmlessAnyOrder(Approved(rows), b, ns.Keys, canon);
    OrdersAgree(ns, a, b, canon);
    AllSucceed(ns, a, canon);
    ObjectsKept(ns, a, ApplyAll(ns, a, canon).value);
    ReversedRestores(ns, a, canon);
  }

  // ----- targets that differ from an existing name only by case

  /** Whatever the preview approves for a directory is new even when case is folded. */
  ghost predicate ApprovedDisjoint(k: Checks) {
    forall name, target, dir, proposed :: name in dir && DirectoryVerdict(name, target, dir, k, proposed).None? ==>
      Free(target, dir.Keys, k.fold)
  }

  /** The filesystem takes names that fold alike for the same, as far as they can be targets. */
  ghost predicate FoldsCase(k: Checks) {
    forall a, b :: ValidName(a) && k.allowed(a) && k.fold(a) == k.fold(b) ==> k.canon(a) == k.canon(b)
  }

  /** A file row is always disjoint from the existing names under case folding (VerdictMeans); a directory
      row exactly on the filesystems that fold case. */
  lemma DirectoriesDisjointExactly(k: Checks)
    ensures ApprovedDisjoint(k) <==> FoldsCase(k)
  {
    hide ValidName;
    if !FoldsCase(k) {
      var a, b :| ValidName(a) && k.allowed(a) && k.fold(a) == k.fold(b) && k.canon(a) != k.canon(b);
      var dir := map[b := Entry(true, true)];
      assert DirectoryVerdict(b, a, dir, k, {}).None?;
      assert b in dir.Keys;
    }
  }

  /** For one, where case is told apart, `a` beside `B` may become `b`. */
  lemma OnlyDirectoriesMayDifferByCase(fold: string -> string, allowed: string -> bool)
    requires fold("b") == fold("B") && allowed("b")
    ensures var dir := map["a" := Entry(true, true), "B" := Entry(true, true)];
            var k := Checks(fold, s => s, allowed);
            && UpdatedName("a", ReplaceName, "a", "b", false) == "b"
            && Verdict(false, "a", "b", dir, k, {}).None?
            && Verdict(true, "a", "b", dir, k, {}) == Some(Collision)
  {
    var dir := map["a" := Entry(true, true), "B" := Entry(true, true)];
    assert "B" in dir.Keys;
    assert "a"[..1] == "a" && "a"[1..] == "";
    assert Replace("a", "a", "b") == "b" + Replace("", "a", "b");
  }
}
