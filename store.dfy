/**
 * The habit store: the list of habit records the commands look up and change
 * in place (`df.Habits`), the lookup by index, name or short name
 * (`findHabit`), and the short-name helpers `suggestShortName` and
 * `ensureUniqueShortName`.
 *
 * A record's free-form reminder map is never read by the core and is not
 * modelled.  Reading and writing the data file is not modelled either: a
 * command's effect is the new value of the list.
 */
module Store {
  import opened Wrappers
  import opened Text
  import opened DateKey
  import Sorting

  /** A habit record: its name, its short name ("" when none was set) and the
      keys of the days it was done on. */
  datatype Habit = Habit(name: string, shortName: string, dates: seq<string>)

  /** How a command ends.  Only `Ok` saves the list. */
  datatype Status =
    | Ok
    | NoName              // add: the name is empty after trimming
    | DuplicateName       // add, edit: another habit has the name, ignoring case
    | NotFound            // the identifier names no habit
    | InvalidDate         // the --date value is not a "YYYY-MM-DD" date
    | FutureDate          // the --date value is after today
    | AlreadyMarked       // done: the day is already recorded
    | NotMarked           // remove: the day is not recorded
    | Cancelled           // delete: the answer was not "y" or "yes"
    | NothingToChange     // edit: neither a new name nor a new short name
    | BadShortName        // edit: the short name is not made of [a-z0-9_-]
    | DuplicateShortName  // edit: another habit has the short name

  /** The name test of the lookup: the name ignoring case, or the short name
      exactly. */
  predicate Matches(h: Habit, id: string) {
    EqualFold(h.name, id) || h.shortName == id
  }

  /** The first position at or after `from` whose habit matches, or -1. */
  function FirstMatch(habits: seq<Habit>, id: string, from: nat): (i: int)
    requires from <= |habits|
    ensures i == -1 || from <= i < |habits|
    decreases |habits| - from
  {
    if from == |habits| then -1
    else if Matches(habits[from], id) then from
    else FirstMatch(habits, id, from + 1)
  }

  /** `findHabit`: the position of the habit the identifier names, or -1.  A
      number 1..|habits| is a 1-based position; otherwise the first habit
      whose name or short name matches. */
  function Find(habits: seq<Habit>, id: string): (i: int)
    ensures -1 <= i < |habits|
  {
    var n := ParseInt(id);
    if n.Some? && 1 <= n.value <= |habits| then n.value - 1 else FirstMatch(habits, id, 0)
  }

  /** FirstMatch finds the first matching habit from `from` on, and -1 exactly
      when there is none. */
  lemma {:induction false} FirstMatchSpec(habits: seq<Habit>, id: string, from: nat)
    requires from <= |habits|
    ensures var i := FirstMatch(habits, id, from);
      && (i == -1 <==> forall j :: from <= j < |habits| ==> !Matches(habits[j], id))
      && (i != -1 ==> Matches(habits[i], id) && forall j :: from <= j < i ==> !Matches(habits[j], id))
    decreases |habits| - from
  {
    if from < |habits| && !Matches(habits[from], id) {
      FirstMatchSpec(habits, id, from + 1);
    }
  }

  /** The lookup precedence: a 1-based position in range wins; otherwise the
      first habit matching by name (ignoring case) or short name; otherwise
      nothing. */
  lemma FindSpec(habits: seq<Habit>, id: string)
    ensures var n := ParseInt(id);
      n.Some? && 1 <= n.value <= |habits| ==> Find(habits, id) == n.value - 1
    ensures var n := ParseInt(id);
      !(n.Some? && 1 <= n.value <= |habits|) ==>
        && (Find(habits, id) == -1 <==> forall j :: 0 <= j < |habits| ==> !Matches(habits[j], id))
        && (Find(habits, id) != -1 ==>
              Matches(habits[Find(habits, id)], id)
              && forall j :: 0 <= j < Find(habits, id) ==> !Matches(habits[j], id))
  {
    FirstMatchSpec(habits, id, 0);
  }

  /** The position written as a 1-based number finds the habit at that
      position, whatever the names are. */
  lemma FindByPosition(habits: seq<Habit>, i: nat)
    requires i < |habits|
    ensures Find(habits, Decimal(i + 1)) == i
  {
    ParseDecimal(i + 1);
  }

  /** The lookup depends only on the names, the short names and the number of
      habits. */
  lemma FindSameNames(a: seq<Habit>, b: seq<Habit>, id: string)
    requires |a| == |b|
    requires forall j :: 0 <= j < |a| ==> a[j].name == b[j].name && a[j].shortName == b[j].shortName
    ensures Find(a, id) == Find(b, id)
  {
    FirstMatchSameNames(a, b, id, 0);
  }

  lemma {:induction false} FirstMatchSameNames(a: seq<Habit>, b: seq<Habit>, id: string, from: nat)
    requires |a| == |b| && from <= |a|
    requires forall j :: 0 <= j < |a| ==> a[j].name == b[j].name && a[j].shortName == b[j].shortName
    ensures FirstMatch(a, id, from) == FirstMatch(b, id, from)
    decreases |a| - from
  {
    if from < |a| {
      FirstMatchSameNames(a, b, id, from + 1);
    }
  }

  // ---------------------------------------------------------------------
  // Short names

  /** The characters `^[a-z0-9_-]+$` allows. */
  predicate ShortNameChar(c: char) {
    'a' <= c <= 'z' || '0' <= c <= '9' || c == '_' || c == '-'
  }

  /** A short name `commandEdit` accepts: `^[a-z0-9_-]+$`. */
  predicate ValidShortName(s: string) {
    s != [] && forall i :: 0 <= i < |s| ==> ShortNameChar(s[i])
  }

  /** ASCII letters (`unicode.IsLetter` restricted to ASCII). */
  predicate IsLetter(c: char) {
    'a' <= c <= 'z' || 'A' <= c <= 'Z'
  }

  /** The first characters, lower-cased, of the words that start with a
      letter or a digit. */
  function Initials(words: seq<string>): (s: string)
    requires forall k :: 0 <= k < |words| ==> IsWord(words[k])
    ensures |s| <= |words|
  {
    if words == [] then []
    else
      var w := words[|words| - 1];
      assert IsWord(w);
      Initials(words[..|words| - 1]) + (if IsLetter(w[0]) || IsDigit(w[0]) then [Lower(w[0])] else [])
  }

  lemma InitialsStep(words: seq<string>, k: nat)
    requires k < |words| && forall j :: 0 <= j < |words| ==> IsWord(words[j])
    ensures IsWord(words[k])
    ensures Initials(words[..k + 1]) == Initials(words[..k]) +
      (if IsLetter(words[k][0]) || IsDigit(words[k][0]) then [Lower(words[k][0])] else [])
  {
    assert words[..k + 1][..k] == words[..k];
  }

  /** The regular-expression replacement `[^a-z0-9_-]` → "": keep the
      short-name characters, in order. */
  function KeepShortNameChars(s: string): (r: string)
    ensures |r| <= |s|
    ensures forall i :: 0 <= i < |r| ==> ShortNameChar(r[i])
  {
    if s == [] then []
    else KeepShortNameChars(s[..|s| - 1]) + (if ShortNameChar(s[|s| - 1]) then [s[|s| - 1]] else [])
  }

  /** `suggestShortName`: the initials of the name's words, stripped to the
      short-name characters, or "habit" when nothing is left. */
  function Suggested(habitName: string): string {
    var s := KeepShortNameChars(Initials(Fields(habitName)));
    if s == [] then "habit" else s
  }

  /** `suggestShortName`: the initials of the words, then the filter. */
  method SuggestShortName(habitName: string) returns (shortName: string)
    ensures shortName == Suggested(habitName)
  {
    var words := Fields(habitName);
    var builder := InitialsLoop(words);
    shortName := KeepShortNameChars(builder);
    if shortName == "" {
      return "habit";
    }
  }

  /** The loop of `suggestShortName` over the words: the lower-cased first
      character of each word that starts with a letter or a digit. */
  method InitialsLoop(words: seq<string>) returns (builder: string)
    requires forall k :: 0 <= k < |words| ==> IsWord(words[k])
    ensures builder == Initials(words)
  {
    builder := "";
    var k := 0;
    while k < |words|
      invariant 0 <= k <= |words|
      invariant builder == Initials(words[..k])
    {
      var w := words[k];
      InitialsStep(words, k);
      if IsLetter(w[0]) || IsDigit(w[0]) {
        builder := builder + [Lower(w[0])];
      }
      k := k + 1;
    }
    assert words[..|words|] == words;
  }

  /** Every suggestion is a short name `commandEdit` would accept. */
  lemma SuggestedIsValid(habitName: string)
    ensures ValidShortName(Suggested(habitName))
  {
    var s := KeepShortNameChars(Initials(Fields(habitName)));
    if s == [] {
      assert forall i :: 0 <= i < 5 ==> ShortNameChar("habit"[i]);
    }
  }

  /** When every word starts with an ASCII letter or digit, the suggestion
      has exactly one character per word: its lower-cased first character. */
  lemma InitialsOfWords(words: seq<string>)
    requires forall k :: 0 <= k < |words| ==> IsWord(words[k]) && (IsLetter(words[k][0]) || IsDigit(words[k][0]))
    ensures KeepShortNameChars(Initials(words)) == Initials(words)
    ensures |Initials(words)| == |words|
    ensures forall k :: 0 <= k < |words| ==> Initials(words)[k] == Lower(words[k][0])
  {
    FirstCharacters(words);
    KeepAll(Initials(words));
  }

  /** The initials of words that all start with a letter or digit: one per
      word, its first character lower-cased. */
  lemma {:induction false} FirstCharacters(words: seq<string>)
    requires forall k :: 0 <= k < |words| ==> IsWord(words[k]) && (IsLetter(words[k][0]) || IsDigit(words[k][0]))
    ensures |Initials(words)| == |words|
    ensures forall k :: 0 <= k < |words| ==> Initials(words)[k] == Lower(words[k][0])
  {
    if words != [] {
      var n := |words| - 1;
      var front := words[..n];
      assert forall k :: 0 <= k < |front| ==> front[k] == words[k];
      FirstCharacters(front);
      var c := Lower(words[n][0]);
      var s := Initials(words);
      var t := Initials(front);
      assert s == t + [c];
      forall k | 0 <= k < |words| ensures s[k] == Lower(words[k][0]) {
        if k < n {
          assert s[k] == t[k] == Lower(front[k][0]);
        }
      }
    }
  }

  /** The filter keeps a string made of short-name characters whole. */
  lemma {:induction false} KeepAll(t: string)
    requires forall i :: 0 <= i < |t| ==> ShortNameChar(t[i])
    ensures KeepShortNameChars(t) == t
  {
    if t != [] {
      var front := t[..|t| - 1];
      assert forall i :: 0 <= i < |front| ==> front[i] == t[i];
      KeepAll(front);
      assert t == front + [t[|t| - 1]];
    }
  }

  /** The candidate `ensureUniqueShortName` tries with counter k. */
  function Numbered(initial: string, k: nat): string {
    initial + Decimal(k)
  }

  /** Distinct counters give distinct candidates. */
  lemma NumberedInjective(initial: string, a: nat, b: nat)
    requires Numbered(initial, a) == Numbered(initial, b)
    ensures a == b
  {
    assert Numbered(initial, a)[|initial|..] == Decimal(a);
    assert Numbered(initial, b)[|initial|..] == Decimal(b);
    DecimalInjective(a, b);
  }

  /** The candidates with counters 2 .. n - 1. */
  function NumberedBelow(initial: string, n: nat): (r: set<string>)
    ensures forall k: nat :: 2 <= k < n ==> Numbered(initial, k) in r
  {
    if n <= 2 then {} else NumberedBelow(initial, n - 1) + {Numbered(initial, n - 1)}
  }

  /** There are n - 2 of them, as they are distinct. */
  lemma {:induction false} NumberedBelowSize(initial: string, n: nat)
    ensures |NumberedBelow(initial, n)| == if n <= 2 then 0 else n - 2
  {
    if n > 2 {
      NumberedBelowSize(initial, n - 1);
      if Numbered(initial, n - 1) in NumberedBelow(initial, n - 1) {
        var k := NumberedBelowMember(initial, n - 1, Numbered(initial, n - 1));
        NumberedInjective(initial, k, n - 1);
      }
    }
  }

  lemma {:induction false} NumberedBelowMember(initial: string, n: nat, s: string) returns (k: nat)
    requires s in NumberedBelow(initial, n)
    ensures 2 <= k < n && s == Numbered(initial, k)
  {
    if s == Numbered(initial, n - 1) {
      k := n - 1;
    } else {
      k := NumberedBelowMember(initial, n - 1, s);
    }
  }

  lemma SubsetSize<T>(a: set<T>, b: set<T>)
    requires a <= b
    ensures |a| <= |b|
  {
    assert b == a + (b - a);
  }

  /** The short names in use, "" included. */
  function ShortNames(habits: seq<Habit>): set<string> {
    set j | 0 <= j < |habits| :: habits[j].shortName
  }

  /** What `ensureUniqueShortName` returns: the initial short name when it is
      unused, otherwise the first of initial + "2", initial + "3", … that is
      unused. */
  ghost predicate UniqueShortNameOf(habits: seq<Habit>, initial: string, shortName: string) {
    && shortName !in ShortNames(habits)
    && (initial !in ShortNames(habits) ==> shortName == initial)
    && (initial in ShortNames(habits) ==>
          exists k: nat :: 2 <= k && shortName == Numbered(initial, k)
                        && forall j: nat :: 2 <= j < k ==> Numbered(initial, j) in ShortNames(habits))
  }

  /** Is `name` taken, ignoring case, by a habit other than the one at
      `except`? */
  predicate NameTakenBy(habits: seq<Habit>, name: string, except: int) {
    exists j :: 0 <= j < |habits| && j != except && EqualFold(habits[j].name, name)
  }

  /** Is `shortName` the short name of a habit other than the one at
      `except`? */
  predicate ShortNameTakenBy(habits: seq<Habit>, shortName: string, except: int) {
    exists j :: 0 <= j < |habits| && j != except && habits[j].shortName == shortName
  }

  /** The same short name is the only one that meets the description: the
      result of `ensureUniqueShortName` is determined by the list and the
      initial short name. */
  lemma UniqueShortNameDetermined(habits: seq<Habit>, initial: string, a: string, b: string)
    requires UniqueShortNameOf(habits, initial, a) && UniqueShortNameOf(habits, initial, b)
    ensures a == b
  {
    if initial in ShortNames(habits) {
      var ka: nat :| 2 <= ka && a == Numbered(initial, ka)
                  && forall j: nat :: 2 <= j < ka ==> Numbered(initial, j) in ShortNames(habits);
      var kb: nat :| 2 <= kb && b == Numbered(initial, kb)
                  && forall j: nat :: 2 <= j < kb ==> Numbered(initial, j) in ShortNames(habits);
      assert !(ka < kb) && !(kb < ka);
    }
  }

  /** `ensureUniqueShortName`: collect the short names in use, then try the
      initial short name, initial + "2", initial + "3", … until one is
      unused. */
  method EnsureUniqueShortName(habits: seq<Habit>, initial: string) returns (shortName: string)
    ensures UniqueShortNameOf(habits, initial, shortName)
  {
    var existing := ShortNamesOf(habits);
    shortName := initial;
    var counter := 2;
    while shortName in existing
      invariant 2 <= counter
      invariant counter == 2 ==> shortName == initial
      invariant counter > 2 ==> initial in existing && shortName == Numbered(initial, counter - 1)
      invariant NumberedBelow(initial, counter - 1) <= existing
      decreases |existing| + 3 - counter
    {
      NumberedBelowSize(initial, counter);
      SubsetSize(NumberedBelow(initial, counter), existing);
      shortName := Numbered(initial, counter);
      counter := counter + 1;
    }
    if initial in existing {
      var k: nat := counter - 1;
      assert forall j: nat :: 2 <= j < k ==> Numbered(initial, j) in NumberedBelow(initial, k);
    }
  }

  /** The loop collecting the short names in use. */
  method ShortNamesOf(habits: seq<Habit>) returns (existing: set<string>)
    ensures existing == ShortNames(habits)
  {
    existing := {};
    for i := 0 to |habits|
      invariant existing == ShortNames(habits[..i])
    {
      assert habits[..i + 1][..i] == habits[..i];
      existing := existing + {habits[i].shortName};
    }
    assert habits[..|habits|] == habits;
  }

  // ---------------------------------------------------------------------
  // What the commands do to the list

  /** No two habits have names equal ignoring case. */
  predicate DistinctNames(habits: seq<Habit>) {
    forall i, j :: 0 <= i < j < |habits| ==> !EqualFold(habits[i].name, habits[j].name)
  }

  /** No two habits share a short name that was set. */
  predicate DistinctShortNames(habits: seq<Habit>) {
    forall i, j :: 0 <= i < j < |habits| && habits[i].shortName != "" ==> habits[i].shortName != habits[j].shortName
  }

  /** The day a `done` or `remove` command is about, or why there is none. */
  datatype Target = Chosen(day: int) | Refused(status: Status)

  /** The --date value: today when none is given; otherwise it must parse as
      "YYYY-MM-DD" and must not be after today. */
  function TargetDate(dateValue: string, today: int): (t: Target)
    ensures t.Refused? ==> t.status == InvalidDate || t.status == FutureDate
  {
    if dateValue == "" then Chosen(today)
    else
      match Parse(dateValue)
      case None => Refused(InvalidDate)
      case Some(day) => if day > today then Refused(FutureDate) else Chosen(day)
  }

  /** A chosen day is today or earlier, and a given --date value is the key
      of the chosen day: what the command records is what the user typed. */
  lemma TargetDateSpec(dateValue: string, today: int)
    ensures TargetDate(dateValue, today).Chosen? ==> TargetDate(dateValue, today).day <= today
    ensures dateValue != "" && TargetDate(dateValue, today).Chosen? ==>
              Key(TargetDate(dateValue, today).day) == dateValue
    ensures dateValue != "" ==>
              (TargetDate(dateValue, today) == Refused(InvalidDate) <==> Parse(dateValue).None?)
  {
    if dateValue != "" && Parse(dateValue).Some? {
      KeyOfParse(dateValue);
    }
  }

  /** The byte order of `sort.Strings` is a total order. */
  lemma StringOrder()
    ensures Sorting.TotalPreorder(StrLe) && Sorting.Antisymmetric(StrLe)
  {
    forall a: string, b: string ensures StrLe(a, b) || StrLe(b, a) {
      StrLeTotal(a, b);
    }
    forall a: string, b: string, c: string | StrLe(a, b) && StrLe(b, c) ensures StrLe(a, c) {
      StrLeTransitive(a, b, c);
    }
    forall a: string, b: string | StrLe(a, b) && StrLe(b, a) ensures a == b {
      StrLeAntisymmetric(a, b);
    }
  }

  /** `sort.Strings`. */
  function SortStrings(s: seq<string>): (r: seq<string>)
    ensures Sorting.SortedBy(r, StrLe) && multiset(r) == multiset(s)
  {
    StringOrder();
    Sorting.Sort(s, StrLe)
  }

  /** The dates other than `key`, in their order: the filter loop of
      `commandRemove`. */
  function Without(dates: seq<string>, key: string): (r: seq<string>)
    ensures key !in r
    ensures forall x :: x != key ==> multiset(r)[x] == multiset(dates)[x]
  {
    if dates == [] then []
    else
      var front := dates[..|dates| - 1];
      assert dates == front + [dates[|dates| - 1]];
      Without(front, key) + (if dates[|dates| - 1] == key then [] else [dates[|dates| - 1]])
  }

  /** The list after `commandAdd`, and how it ends. */
  function AddResult(habits: seq<Habit>, input: string): (Status, seq<Habit>) {
    var name := TrimSpace(input);
    if name == [] then (NoName, habits)
    else if NameTakenBy(habits, name, -1) then (DuplicateName, habits)
    else (Ok, habits + [Habit(name, "", [])])
  }

  /** The list after `commandDone`: find the habit, choose the day, refuse a
      day already recorded, otherwise record its key and sort the dates. */
  function MarkDoneResult(habits: seq<Habit>, id: string, dateValue: string, today: int): (Status, seq<Habit>) {
    var i := Find(habits, id);
    if i == -1 then (NotFound, habits)
    else
      match TargetDate(dateValue, today)
      case Refused(status) => (status, habits)
      case Chosen(day) =>
        if Key(day) in habits[i].dates then (AlreadyMarked, habits)
        else (Ok, habits[i := habits[i].(dates := SortStrings(habits[i].dates + [Key(day)]))])
  }

  /** The list after `commandRemove`: find the habit, choose the day, then
      drop every copy of its key, or report that it was not recorded. */
  function RemoveResult(habits: seq<Habit>, id: string, dateValue: string, today: int): (Status, seq<Habit>) {
    var i := Find(habits, id);
    if i == -1 then (NotFound, habits)
    else
      match TargetDate(dateValue, today)
      case Refused(status) => (status, habits)
      case Chosen(day) =>
        if Key(day) in habits[i].dates then (Ok, habits[i := habits[i].(dates := Without(habits[i].dates, Key(day)))])
        else (NotMarked, habits)
  }

  /** The confirmation `commandDelete` accepts: "y" or "yes", ignoring case
      and surrounding white space. */
  predicate Confirms(answer: string) {
    var a := TrimSpace(LowerString(answer));
    a == "y" || a == "yes"
  }

  /** The list after `commandDelete`, given the answer to its prompt. */
  function DeleteResult(habits: seq<Habit>, id: string, answer: string): (Status, seq<Habit>) {
    var i := Find(habits, id);
    if i == -1 then (NotFound, habits)
    else if !Confirms(answer) then (Cancelled, habits)
    else (Ok, habits[..i] + habits[i + 1..])
  }

  /** The list in memory after `commandEdit`.  The new name is set before the
      short name is checked, so a refused short name leaves the renamed
      habit in memory; only `Ok` saves it. */
  function EditResult(habits: seq<Habit>, id: string, nameValue: string, shortValue: string): (Status, seq<Habit>) {
    var i := Find(habits, id);
    if i == -1 then (NotFound, habits)
    else if nameValue == "" && shortValue == "" then (NothingToChange, habits)
    else if nameValue != "" && NameTakenBy(habits, nameValue, i) then (DuplicateName, habits)
    else
      var renamed := if nameValue != "" then habits[i := habits[i].(name := nameValue)] else habits;
      if shortValue == "" then (Ok, renamed)
      else if !ValidShortName(shortValue) then (BadShortName, renamed)
      else if ShortNameTakenBy(renamed, shortValue, i) then (DuplicateShortName, renamed)
      else (Ok, renamed[i := renamed[i].(shortName := shortValue)])
  }

  /** The names in use, compared exactly. */
  function Names(habits: seq<Habit>): set<string> {
    set j | 0 <= j < |habits| :: habits[j].name
  }

  /** The imported habits whose exact name is not in `existing`, in order. */
  function NewHabits(imported: seq<Habit>, existing: set<string>): (r: seq<Habit>)
    ensures |r| <= |imported|
  {
    if imported == [] then []
    else
      NewHabits(imported[..|imported| - 1], existing)
        + (if imported[|imported| - 1].name in existing then [] else [imported[|imported| - 1]])
  }

  /** The list after `commandImport`: with merge, the imported habits whose
      name is new are appended; otherwise the imported list replaces it. */
  function ImportResult(habits: seq<Habit>, imported: seq<Habit>, merge: bool): seq<Habit> {
    if merge then habits + NewHabits(imported, Names(habits)) else imported
  }

  /** The names of the habits whose dates lack `key`, among the first n. */
  function Reminders(habits: seq<Habit>, key: string, n: nat): (names: seq<string>)
    requires n <= |habits|
    ensures |names| <= n
  {
    if n == 0 then []
    else Reminders(habits, key, n - 1) + (if key in habits[n - 1].dates then [] else [habits[n - 1].name])
  }

  /** The same, each paired with its 1-based position written in decimal. */
  function IndexedReminders(habits: seq<Habit>, key: string, n: nat): (pairs: seq<(string, string)>)
    requires n <= |habits|
    ensures |pairs| == |Reminders(habits, key, n)|
  {
    if n == 0 then []
    else IndexedReminders(habits, key, n - 1)
           + (if key in habits[n - 1].dates then [] else [(Decimal(n), habits[n - 1].name)])
  }

  // ---------------------------------------------------------------------
  // The store and its commands

  /** Whether the list holds `s` (the search loops over `DatesTracked`). */
  method Contains(list: seq<string>, s: string) returns (found: bool)
    ensures found <==> s in list
  {
    found := false;
    var k := 0;
    while k < |list|
      invariant 0 <= k <= |list|
      invariant s !in list[..k]
    {
      if list[k] == s {
        return true;
      }
      k := k + 1;
    }
  }

  /** The records of the data file (`df.Habits`), changed in place by the
      commands.  Each command returns how it ended; the list is saved only
      when it ends with `Ok`. */
  class HabitStore {
    var habits: seq<Habit>

    constructor (loaded: seq<Habit>)
      ensures habits == loaded
    {
      habits := loaded;
    }

    /** `findHabit`. */
    method FindHabit(id: string) returns (index: int)
      ensures index == Find(habits, id)
    {
      var n := ParseInt(id);
      if n.Some? && 1 <= n.value <= |habits| {
        return n.value - 1;
      }
      var i := 0;
      while i < |habits|
        invariant 0 <= i <= |habits|
        invariant FirstMatch(habits, id, i) == FirstMatch(habits, id, 0)
      {
        if EqualFold(habits[i].name, id) || habits[i].shortName == id {
          return i;
        }
        i := i + 1;
      }
      return -1;
    }

    /** The duplicate-name loop of `commandAdd` and `commandEdit`: is the
        name taken, ignoring case, by a habit other than the one at
        `except`? */
    method NameTaken(name: string, except: int) returns (taken: bool)
      ensures taken == NameTakenBy(habits, name, except)
    {
      var i := 0;
      while i < |habits|
        invariant 0 <= i <= |habits|
        invariant !NameTakenBy(habits[..i], name, except)
      {
        if i != except && EqualFold(habits[i].name, name) {
          assert habits[i].name == habits[..i + 1][i].name;
          return true;
        }
        assert habits[..i + 1][..i] == habits[..i];
        i := i + 1;
      }
      assert habits[..i] == habits;
      return false;
    }

    /** The duplicate-short-name loop of `commandEdit`. */
    method ShortNameTaken(shortName: string, except: int) returns (taken: bool)
      ensures taken == ShortNameTakenBy(habits, shortName, except)
    {
      var i := 0;
      while i < |habits|
        invariant 0 <= i <= |habits|
        invariant !ShortNameTakenBy(habits[..i], shortName, except)
      {
        if i != except && habits[i].shortName == shortName {
          assert habits[i].shortName == habits[..i + 1][i].shortName;
          return true;
        }
        assert habits[..i + 1][..i] == habits[..i];
        i := i + 1;
      }
      assert habits[..i] == habits;
      return false;
    }

    /** `commandAdd`. */
    method Add(input: string) returns (status: Status)
      modifies this
      ensures (status, habits) == AddResult(old(habits), input)
    {
      var name := TrimSpace(input);
      if name == "" {
        return NoName;
      }
      var taken := NameTaken(name, -1);
      if taken {
        return DuplicateName;
      }
      habits := habits + [Habit(name, "", [])];
      return Ok;
    }

    /** `commandDone`. */
    method MarkDone(id: string, dateValue: string, today: int) returns (status: Status)
      modifies this
      ensures (status, habits) == MarkDoneResult(old(habits), id, dateValue, today)
    {
      var i := FindHabit(id);
      if i == -1 {
        return NotFound;
      }
      var target := TargetDate(dateValue, today);
      if target.Refused? {
        return target.status;
      }
      var dateStr := Key(target.day);
      var already := Contains(habits[i].dates, dateStr);
      if already {
        return AlreadyMarked;
      }
      habits := habits[i := habits[i].(dates := SortStrings(habits[i].dates + [dateStr]))];
      return Ok;
    }

    /** `commandRemove`, with its filter loop. */
    method RemoveDate(id: string, dateValue: string, today: int) returns (status: Status)
      modifies this
      ensures (status, habits) == RemoveResult(old(habits), id, dateValue, today)
    {
      var i := FindHabit(id);
      if i == -1 {
        return NotFound;
      }
      var target := TargetDate(dateValue, today);
      if target.Refused? {
        return target.status;
      }
      var dateStr := Key(target.day);
      var found, newDates := FilterDates(habits[i].dates, dateStr);
      if !found {
        return NotMarked;
      }
      habits := habits[i := habits[i].(dates := newDates)];
      return Ok;
    }

    /** `commandDelete`, given the answer typed at its prompt. */
    method Delete(id: string, answer: string) returns (status: Status)
      modifies this
      ensures (status, habits) == DeleteResult(old(habits), id, answer)
    {
      var index := FindHabit(id);
      if index == -1 {
        return NotFound;
      }
      var resp := TrimSpace(LowerString(answer));
      if !(resp == "y" || resp == "yes") {
        return Cancelled;
      }
      habits := habits[..index] + habits[index + 1..];
      return Ok;
    }

    /** `commandEdit`, given the --name and --short values ("" when not
        given). */
    method Edit(id: string, nameValue: string, shortValue: string) returns (status: Status)
      modifies this
      ensures (status, habits) == EditResult(old(habits), id, nameValue, shortValue)
    {
      var index := FindHabit(id);
      if index == -1 {
        return NotFound;
      }
      if nameValue == "" && shortValue == "" {
        return NothingToChange;
      }
      if nameValue != "" {
        var taken := NameTaken(nameValue, index);
        if taken {
          return DuplicateName;
        }
        habits := habits[index := habits[index].(name := nameValue)];
      }
      if shortValue != "" {
        if !ValidShortName(shortValue) {
          return BadShortName;
        }
        var taken := ShortNameTaken(shortValue, index);
        if taken {
          return DuplicateShortName;
        }
        habits := habits[index := habits[index].(shortName := shortValue)];
      }
      return Ok;
    }

    /** `commandImport`, given the habits read from the import file. */
    method Import(imported: seq<Habit>, merge: bool)
      modifies this
      ensures habits == ImportResult(old(habits), imported, merge)
    {
      if !merge {
        habits := imported;
        return;
      }
      var existing := NamesOf(habits);
      ghost var before := habits;
      for k := 0 to |imported|
        invariant habits == before + NewHabits(imported[..k], existing)
      {
        assert imported[..k + 1][..k] == imported[..k];
        if imported[k].name !in existing {
          habits := habits + [imported[k]];
        }
      }
      assert imported[..|imported|] == imported;
    }

    /** `checkReminders`: the names of the habits not done today. */
    method CheckReminders(today: int) returns (needsReminder: seq<string>)
      ensures needsReminder == Reminders(habits, Key(today), |habits|)
    {
      needsReminder := RemindersLoop(habits, Key(today));
    }

    /** `checkRemindersWithIndices`: the same habits, each with its 1-based
        position. */
    method CheckRemindersWithIndices(today: int) returns (needsReminder: seq<(string, string)>)
      ensures needsReminder == IndexedReminders(habits, Key(today), |habits|)
    {
      needsReminder := IndexedRemindersLoop(habits, Key(today));
    }
  }

  /** The loop of `checkReminders` over the habits, for today's key. */
  method RemindersLoop(habits: seq<Habit>, key: string) returns (needsReminder: seq<string>)
    ensures needsReminder == Reminders(habits, key, |habits|)
  {
    needsReminder := [];
    for i := 0 to |habits|
      invariant needsReminder == Reminders(habits, key, i)
    {
      var isDoneToday := Contains(habits[i].dates, key);
      if !isDoneToday {
        needsReminder := needsReminder + [habits[i].name];
      }
    }
  }

  /** The loop of `checkRemindersWithIndices` over the habits, for today's key. */
  method IndexedRemindersLoop(habits: seq<Habit>, key: string) returns (needsReminder: seq<(string, string)>)
    ensures needsReminder == IndexedReminders(habits, key, |habits|)
  {
    needsReminder := [];
    for i := 0 to |habits|
      invariant needsReminder == IndexedReminders(habits, key, i)
    {
      var isDoneToday := Contains(habits[i].dates, key);
      if !isDoneToday {
        needsReminder := needsReminder + [(Decimal(i + 1), habits[i].name)];
      }
    }
  }

  /** The filter loop of `commandRemove`: the dates other than `key`, and
      whether `key` was among them. */
  method FilterDates(dates: seq<string>, key: string) returns (found: bool, newDates: seq<string>)
    ensures found <==> key in dates
    ensures newDates == Without(dates, key)
  {
    found := false;
    newDates := [];
    for k := 0 to |dates|
      invariant found <==> key in dates[..k]
      invariant newDates == Without(dates[..k], key)
    {
      assert dates[..k + 1] == dates[..k] + [dates[k]];
      WithoutSnoc(dates[..k], dates[k], key);
      if dates[k] == key {
        found := true;
      } else {
        newDates := newDates + [dates[k]];
      }
    }
    assert dates[..|dates|] == dates;
  }

  /** Filtering a list one date longer. */
  lemma WithoutSnoc(front: seq<string>, x: string, key: string)
    ensures Without(front + [x], key) == Without(front, key) + (if x == key then [] else [x])
  {
    assert (front + [x])[..|front|] == front;
  }

  /** The loop collecting the names in use, for the merge. */
  method NamesOf(habits: seq<Habit>) returns (existing: set<string>)
    ensures existing == Names(habits)
  {
    existing := {};
    for i := 0 to |habits|
      invariant existing == Names(habits[..i])
    {
      assert habits[..i + 1][..i] == habits[..i];
      existing := existing + {habits[i].name};
    }
    assert habits[..|habits|] == habits;
  }

  // ---------------------------------------------------------------------
  // Properties of the commands

  /** `commandAdd` succeeds exactly when the trimmed name is non-empty and
      unused ignoring case; it then appends one habit with that name, no
      short name and no dates, and otherwise changes nothing.  Names stay
      distinct ignoring case. */
  lemma AddSpec(habits: seq<Habit>, input: string)
    ensures var (status, after) := AddResult(habits, input);
      && (status == Ok <==> TrimSpace(input) != [] && forall j :: 0 <= j < |habits| ==> !EqualFold(habits[j].name, TrimSpace(input)))
      && (status != Ok ==> after == habits)
      && (status == Ok ==> |after| == |habits| + 1 && after[..|habits|] == habits
                           && after[|habits|] == Habit(TrimSpace(input), "", []))
    ensures DistinctNames(habits) ==> DistinctNames(AddResult(habits, input).1)
  {
  }

  /** A habit just added is found by its name, unless its name reads as a
      position in the list or is another habit's short name. */
  lemma AddedIsFound(habits: seq<Habit>, input: string)
    requires AddResult(habits, input).0 == Ok
    requires ParseInt(TrimSpace(input)).None? && TrimSpace(input) !in ShortNames(habits)
    ensures Find(AddResult(habits, input).1, TrimSpace(input)) == |habits|
  {
    var name := TrimSpace(input);
    var after := AddResult(habits, input).1;
    FirstMatchSpec(after, name, 0);
    forall j | 0 <= j < |habits| ensures !Matches(after[j], name) {
      assert after[j] == habits[j];
      assert habits[j].shortName in ShortNames(habits);
    }
    assert EqualFold(after[|habits|].name, name);
  }

  /** `commandDone` changes at most the habit found: when it succeeds, that
      habit gains exactly the chosen day's key, which it did not hold, and
      its dates end up in order; otherwise nothing changes.  A day already
      recorded is refused. */
  lemma MarkDoneSpec(habits: seq<Habit>, id: string, dateValue: string, today: int)
    ensures var (status, after) := MarkDoneResult(habits, id, dateValue, today);
      var i := Find(habits, id);
      && (status != Ok ==> after == habits)
      && (status == Ok ==>
            && i != -1 && TargetDate(dateValue, today).Chosen?
            && var key := Key(TargetDate(dateValue, today).day);
            && key !in habits[i].dates
            && |after| == |habits|
            && (forall j :: 0 <= j < |habits| && j != i ==> after[j] == habits[j])
            && after[i].name == habits[i].name && after[i].shortName == habits[i].shortName
            && multiset(after[i].dates) == multiset(habits[i].dates) + multiset{key}
            && Sorting.SortedBy(after[i].dates, StrLe))
      && (status == AlreadyMarked <==>
            i != -1 && TargetDate(dateValue, today).Chosen? && Key(TargetDate(dateValue, today).day) in habits[i].dates)
  {
  }

  /** A date typed with --date is recorded as typed. */
  lemma MarkDoneRecordsTypedDate(habits: seq<Habit>, id: string, dateValue: string, today: int)
    requires dateValue != "" && MarkDoneResult(habits, id, dateValue, today).0 == Ok
    ensures var i := Find(habits, id);
      dateValue !in habits[i].dates && dateValue in MarkDoneResult(habits, id, dateValue, today).1[i].dates
  {
    TargetDateSpec(dateValue, today);
    var i := Find(habits, id);
    var after := MarkDoneResult(habits, id, dateValue, today).1;
    assert dateValue in multiset(after[i].dates);
  }

  /** A list without repeated dates. */
  ghost predicate NoRepeats(dates: seq<string>) {
    forall x :: multiset(dates)[x] <= 1
  }

  /** Marking done never introduces a repeated date. */
  lemma MarkDoneNoRepeats(habits: seq<Habit>, id: string, dateValue: string, today: int)
    requires forall j :: 0 <= j < |habits| ==> NoRepeats(habits[j].dates)
    ensures var after := MarkDoneResult(habits, id, dateValue, today).1;
      forall j :: 0 <= j < |after| ==> NoRepeats(after[j].dates)
  {
    MarkDoneSpec(habits, id, dateValue, today);
  }

  /** Removing keeps the other dates in their order: it distributes over
      concatenation and keeps or drops each single date. */
  lemma {:induction false} WithoutKeepsOrder(a: seq<string>, b: seq<string>, key: string)
    ensures Without(a + b, key) == Without(a, key) + Without(b, key)
    decreases |b|
  {
    if b != [] {
      var front := b[..|b| - 1];
      assert (a + b)[..|a + b| - 1] == a + front;
      WithoutKeepsOrder(a, front, key);
    } else {
      assert a + b == a;
    }
  }

  lemma WithoutSingle(x: string, key: string)
    ensures Without([x], key) == if x == key then [] else [x]
  {
    assert [x][..0] == [];
  }

  /** Removing an absent date changes nothing. */
  lemma {:induction false} WithoutAbsent(dates: seq<string>, key: string)
    requires key !in dates
    ensures Without(dates, key) == dates
  {
    if dates != [] {
      WithoutAbsent(dates[..|dates| - 1], key);
    }
  }

  /** Removing from an ordered list keeps it ordered. */
  lemma {:induction false} WithoutSorted(dates: seq<string>, key: string)
    requires Sorting.SortedBy(dates, StrLe)
    ensures Sorting.SortedBy(Without(dates, key), StrLe)
  {
    if dates != [] {
      var front := dates[..|dates| - 1];
      var last := dates[|dates| - 1];
      assert Sorting.SortedBy(front, StrLe);
      WithoutSorted(front, key);
      var r := Without(dates, key);
      var w := Without(front, key);
      forall i, j | 0 <= i < j < |r| ensures StrLe(r[i], r[j]) {
        if j == |w| {
          assert r[i] in multiset(w);
          assert r[i] in front;
          var k :| 0 <= k < |front| && front[k] == r[i];
          assert dates[k] == r[i];
        }
      }
    }
  }

  /** `commandRemove` changes at most the habit found: when it succeeds,
      that habit held the chosen day's key and loses every copy of it;
      otherwise nothing changes.  A day not recorded is reported. */
  lemma RemoveSpec(habits: seq<Habit>, id: string, dateValue: string, today: int)
    ensures var (status, after) := RemoveResult(habits, id, dateValue, today);
      var i := Find(habits, id);
      && (status != Ok ==> after == habits)
      && (status == Ok ==>
            && i != -1 && TargetDate(dateValue, today).Chosen?
            && var key := Key(TargetDate(dateValue, today).day);
            && key in habits[i].dates
            && |after| == |habits|
            && (forall j :: 0 <= j < |habits| && j != i ==> after[j] == habits[j])
            && after[i].name == habits[i].name && after[i].shortName == habits[i].shortName
            && key !in after[i].dates
            && forall x :: x != key ==> multiset(after[i].dates)[x] == multiset(habits[i].dates)[x])
      && (status == NotMarked <==>
            i != -1 && TargetDate(dateValue, today).Chosen? && Key(TargetDate(dateValue, today).day) !in habits[i].dates)
  {
  }

  /** Recording an absent key in an ordered list and then removing it gives
      the list back. */
  lemma DatesRoundTrip(dates: seq<string>, key: string)
    requires Sorting.SortedBy(dates, StrLe) && key !in dates
    ensures Without(SortStrings(dates + [key]), key) == dates
  {
    var back := Without(SortStrings(dates + [key]), key);
    WithoutSorted(SortStrings(dates + [key]), key);
    forall x ensures multiset(back)[x] == multiset(dates)[x] {
      if x == key {
        assert multiset(back)[x] == 0 && multiset(dates)[x] == 0;
      }
    }
    assert multiset(back) == multiset(dates);
    StringOrder();
    Sorting.SortedUnique(back, dates, StrLe);
  }

  /** Removing a key held once by an ordered list and then recording it
      again gives the list back. */
  lemma DatesRoundTripBack(dates: seq<string>, key: string)
    requires Sorting.SortedBy(dates, StrLe) && NoRepeats(dates) && key in dates
    ensures SortStrings(Without(dates, key) + [key]) == dates
  {
    var back := SortStrings(Without(dates, key) + [key]);
    assert multiset(dates)[key] == 1 by {
      assert key in multiset(dates);
    }
    forall x ensures multiset(back)[x] == multiset(dates)[x] {
    }
    assert multiset(back) == multiset(dates);
    StringOrder();
    Sorting.SortedUnique(back, dates, StrLe);
  }

  /** How `commandDone` ends once the habit and the day are known. */
  lemma MarkDoneAt(habits: seq<Habit>, id: string, dateValue: string, today: int, i: int, day: int)
    requires Find(habits, id) == i && i != -1 && TargetDate(dateValue, today) == Chosen(day)
    ensures Key(day) !in habits[i].dates ==>
      MarkDoneResult(habits, id, dateValue, today) == (Ok, habits[i := habits[i].(dates := SortStrings(habits[i].dates + [Key(day)]))])
  {
  }

  /** How `commandRemove` ends once the habit and the day are known. */
  lemma RemoveAt(habits: seq<Habit>, id: string, dateValue: string, today: int, i: int, day: int)
    requires Find(habits, id) == i && i != -1 && TargetDate(dateValue, today) == Chosen(day)
    ensures Key(day) in habits[i].dates ==>
      RemoveResult(habits, id, dateValue, today) == (Ok, habits[i := habits[i].(dates := Without(habits[i].dates, Key(day)))])
  {
  }

  /** Marking a day done and then removing it restores the list, when the
      habit's dates were in order. */
  lemma MarkDoneThenRemove(habits: seq<Habit>, id: string, dateValue: string, today: int)
    requires MarkDoneResult(habits, id, dateValue, today).0 == Ok
    requires Sorting.SortedBy(habits[Find(habits, id)].dates, StrLe)
    ensures RemoveResult(MarkDoneResult(habits, id, dateValue, today).1, id, dateValue, today) == (Ok, habits)
  {
    var i := Find(habits, id);
    var day := TargetDate(dateValue, today).day;
    MarkDoneAt(habits, id, dateValue, today, i, day);
    RemoveAdded(habits, id, dateValue, today, i, day);
  }

  lemma RemoveAdded(habits: seq<Habit>, id: string, dateValue: string, today: int, i: int, day: int)
    requires Find(habits, id) == i && i != -1 && TargetDate(dateValue, today) == Chosen(day)
    requires Key(day) !in habits[i].dates && Sorting.SortedBy(habits[i].dates, StrLe)
    ensures var added := SortStrings(habits[i].dates + [Key(day)]);
      RemoveResult(habits[i := habits[i].(dates := added)], id, dateValue, today) == (Ok, habits)
  {
    var key := Key(day);
    var added := SortStrings(habits[i].dates + [key]);
    var after := habits[i := habits[i].(dates := added)];
    FindSameNames(after, habits, id);
    assert key in multiset(added);
    RemoveAt(after, id, dateValue, today, i, day);
    DatesRoundTrip(habits[i].dates, key);
    PutBack(habits, i, added);
  }

  /** Changing a habit's dates and then setting them back restores the list. */
  lemma PutBack(habits: seq<Habit>, i: int, dates: seq<string>)
    requires 0 <= i < |habits|
    ensures var after := habits[i := habits[i].(dates := dates)];
      after[i := after[i].(dates := habits[i].dates)] == habits
  {
  }

  /** Removing a day and then marking it done again restores the list, when
      the habit's dates were in order without repeats. */
  lemma RemoveThenMarkDone(habits: seq<Habit>, id: string, dateValue: string, today: int)
    requires RemoveResult(habits, id, dateValue, today).0 == Ok
    requires Sorting.SortedBy(habits[Find(habits, id)].dates, StrLe) && NoRepeats(habits[Find(habits, id)].dates)
    ensures MarkDoneResult(RemoveResult(habits, id, dateValue, today).1, id, dateValue, today) == (Ok, habits)
  {
    var i := Find(habits, id);
    var day := TargetDate(dateValue, today).day;
    RemoveAt(habits, id, dateValue, today, i, day);
    AddRemoved(habits, id, dateValue, today, i, day);
  }

  lemma AddRemoved(habits: seq<Habit>, id: string, dateValue: string, today: int, i: int, day: int)
    requires Find(habits, id) == i && i != -1 && TargetDate(dateValue, today) == Chosen(day)
    requires Key(day) in habits[i].dates && Sorting.SortedBy(habits[i].dates, StrLe) && NoRepeats(habits[i].dates)
    ensures var removed := Without(habits[i].dates, Key(day));
      MarkDoneResult(habits[i := habits[i].(dates := removed)], id, dateValue, today) == (Ok, habits)
  {
    var key := Key(day);
    var removed := Without(habits[i].dates, key);
    var after := habits[i := habits[i].(dates := removed)];
    FindSameNames(after, habits, id);
    MarkDoneAt(after, id, dateValue, today, i, day);
    DatesRoundTripBack(habits[i].dates, key);
    PutBack(habits, i, removed);
  }

  /** After a habit is marked done for today it is no longer among the
      habits to be reminded of. */
  lemma DoneTodayNotReminded(habits: seq<Habit>, id: string, today: int)
    requires MarkDoneResult(habits, id, "", today).0 == Ok
    ensures var after := MarkDoneResult(habits, id, "", today).1;
      var i := Find(habits, id);
      (Decimal(i + 1), after[i].name) !in IndexedReminders(after, Key(today), |after|)
  {
    var after := MarkDoneResult(habits, id, "", today).1;
    var i := Find(habits, id);
    MarkDoneSpec(habits, id, "", today);
    assert Key(today) in multiset(after[i].dates);
    DoneNotListed(after, i, Key(today));
  }

  /** A habit whose dates hold the key is not listed, under its position,
      among the reminders for that key. */
  lemma DoneNotListed(after: seq<Habit>, i: int, key: string)
    requires 0 <= i < |after| && key in after[i].dates
    ensures (Decimal(i + 1), after[i].name) !in IndexedReminders(after, key, |after|)
  {
    IndexedRemindersSpec(after, key, |after|);
    var pairs := IndexedReminders(after, key, |after|);
    if (Decimal(i + 1), after[i].name) in pairs {
      var k :| 0 <= k < |pairs| && pairs[k] == (Decimal(i + 1), after[i].name);
      FindByPosition(after, i);
    }
  }

  /** `checkRemindersWithIndices` lists the same names as `checkReminders`. */
  lemma {:induction false} IndexedRemindersNames(habits: seq<Habit>, key: string, n: nat)
    requires n <= |habits|
    ensures var pairs := IndexedReminders(habits, key, n);
      forall k :: 0 <= k < |pairs| ==> pairs[k].1 == Reminders(habits, key, n)[k]
  {
    if n > 0 {
      IndexedRemindersNames(habits, key, n - 1);
    }
  }

  /** Each entry is the 1-based position and the name of a habit not done on
      the day. */
  lemma {:induction false} IndexedReminderEntry(habits: seq<Habit>, key: string, n: nat, k: nat) returns (j: nat)
    requires n <= |habits| && k < |IndexedReminders(habits, key, n)|
    ensures j < n && key !in habits[j].dates
    ensures IndexedReminders(habits, key, n)[k] == (Decimal(j + 1), habits[j].name)
  {
    var prev := IndexedReminders(habits, key, n - 1);
    if k < |prev| {
      j := IndexedReminderEntry(habits, key, n - 1, k);
    } else {
      j := n - 1;
    }
  }

  /** Each position listed finds a habit of the listed name not done on the
      day, and every habit not done on the day is listed. */
  lemma IndexedRemindersSpec(habits: seq<Habit>, key: string, n: nat)
    requires n <= |habits|
    ensures var pairs := IndexedReminders(habits, key, n);
      forall k :: 0 <= k < |pairs| ==>
        var j := Find(habits, pairs[k].0);
        0 <= j < n && habits[j].name == pairs[k].1 && key !in habits[j].dates
    ensures forall j :: 0 <= j < n && key !in habits[j].dates ==>
      (Decimal(j + 1), habits[j].name) in IndexedReminders(habits, key, n)
  {
    var pairs := IndexedReminders(habits, key, n);
    forall k | 0 <= k < |pairs|
      ensures var j := Find(habits, pairs[k].0);
        0 <= j < n && habits[j].name == pairs[k].1 && key !in habits[j].dates
    {
      var j := IndexedReminderEntry(habits, key, n, k);
      FindByPosition(habits, j);
    }
    IndexedRemindersComplete(habits, key, n);
  }

  lemma {:induction false} IndexedRemindersComplete(habits: seq<Habit>, key: string, n: nat)
    requires n <= |habits|
    ensures forall j :: 0 <= j < n && key !in habits[j].dates ==>
      (Decimal(j + 1), habits[j].name) in IndexedReminders(habits, key, n)
  {
    if n > 0 {
      IndexedRemindersComplete(habits, key, n - 1);
    }
  }

  /** `commandDelete` removes exactly the habit found, keeping the others in
      their order, and only after a "y" or "yes"; otherwise nothing
      changes.  Distinct names stay distinct. */
  lemma DeleteSpec(habits: seq<Habit>, id: string, answer: string)
    ensures var (status, after) := DeleteResult(habits, id, answer);
      var i := Find(habits, id);
      && (status != Ok ==> after == habits)
      && (status == NotFound <==> i == -1)
      && (status == Cancelled <==> i != -1 && !Confirms(answer))
      && (status == Ok <==> i != -1 && Confirms(answer))
      && (status == Ok ==>
            && |after| == |habits| - 1
            && (forall j :: 0 <= j < i ==> after[j] == habits[j])
            && (forall j :: i <= j < |after| ==> after[j] == habits[j + 1])
            && multiset(after) + multiset{habits[i]} == multiset(habits))
    ensures DistinctNames(habits) ==> DistinctNames(DeleteResult(habits, id, answer).1)
  {
    var i := Find(habits, id);
    if i != -1 {
      assert habits == habits[..i] + [habits[i]] + habits[i + 1..];
    }
  }

  /** How `commandEdit` ends: not found, nothing to change, a new name taken
      by another habit ignoring case, a short name that does not match the
      pattern or is another habit's, or success otherwise.  When it succeeds
      it changes only the habit found: its name and short name become the
      values given, those not given stay, and its dates stay. */
  lemma EditSpec(habits: seq<Habit>, id: string, nameValue: string, shortValue: string)
    ensures var (status, after) := EditResult(habits, id, nameValue, shortValue);
      var i := Find(habits, id);
      var proceeds := i != -1 && (nameValue != "" || shortValue != "")
                      && !(nameValue != "" && NameTakenBy(habits, nameValue, i));
      && (status == NotFound <==> i == -1)
      && (status == NothingToChange <==> i != -1 && nameValue == "" && shortValue == "")
      && (status == DuplicateName <==> i != -1 && nameValue != "" && NameTakenBy(habits, nameValue, i))
      && (status == BadShortName <==> proceeds && shortValue != "" && !ValidShortName(shortValue))
      && (status == DuplicateShortName <==>
            proceeds && shortValue != "" && ValidShortName(shortValue) && ShortNameTakenBy(habits, shortValue, i))
      && (status == Ok <==>
            proceeds && (shortValue == "" || (ValidShortName(shortValue) && !ShortNameTakenBy(habits, shortValue, i))))
    ensures var (status, after) := EditResult(habits, id, nameValue, shortValue);
      var i := Find(habits, id);
      && (status == NotFound || status == NothingToChange || status == DuplicateName ==> after == habits)
      && (status == Ok ==>
            && i != -1 && |after| == |habits|
            && (forall j :: 0 <= j < |habits| && j != i ==> after[j] == habits[j])
            && after[i].name == (if nameValue != "" then nameValue else habits[i].name)
            && after[i].shortName == (if shortValue != "" then shortValue else habits[i].shortName)
            && after[i].dates == habits[i].dates)
      && (status == BadShortName ==> i != -1 && shortValue != "" && !ValidShortName(shortValue))
      && (status == Ok && shortValue != "" ==> ValidShortName(after[i].shortName))
  {
    var i := Find(habits, id);
    if i != -1 && nameValue != "" {
      RenameKeepsShortNames(habits, i, nameValue, shortValue);
    }
  }

  /** Renaming a habit leaves the short names, and so which of them is
      taken, as they were. */
  lemma RenameKeepsShortNames(habits: seq<Habit>, i: int, nameValue: string, shortValue: string)
    requires 0 <= i < |habits|
    ensures ShortNameTakenBy(habits[i := habits[i].(name := nameValue)], shortValue, i)
            == ShortNameTakenBy(habits, shortValue, i)
  {
    var renamed := habits[i := habits[i].(name := nameValue)];
    assert forall j :: 0 <= j < |habits| ==> renamed[j].shortName == habits[j].shortName;
  }

  /** Whatever way `commandEdit` ends, names stay distinct ignoring case and
      short names that were set stay distinct, also in the list left in
      memory after a refused short name. */
  lemma EditKeepsNamesDistinct(habits: seq<Habit>, id: string, nameValue: string, shortValue: string)
    requires DistinctNames(habits) && DistinctShortNames(habits)
    ensures DistinctNames(EditResult(habits, id, nameValue, shortValue).1)
    ensures DistinctShortNames(EditResult(habits, id, nameValue, shortValue).1)
  {
    EditNamesDistinct(habits, id, nameValue, shortValue);
    EditShortNamesDistinct(habits, id, nameValue, shortValue);
  }

  lemma EditNamesDistinct(habits: seq<Habit>, id: string, nameValue: string, shortValue: string)
    requires DistinctNames(habits)
    ensures DistinctNames(EditResult(habits, id, nameValue, shortValue).1)
  {
    var after := EditResult(habits, id, nameValue, shortValue).1;
    var i := Find(habits, id);
    forall a, b | 0 <= a < b < |after| ensures !EqualFold(after[a].name, after[b].name) {
      if a != i && b != i {
        assert after[a].name == habits[a].name && after[b].name == habits[b].name;
      }
    }
  }

  lemma EditShortNamesDistinct(habits: seq<Habit>, id: string, nameValue: string, shortValue: string)
    requires DistinctShortNames(habits)
    ensures DistinctShortNames(EditResult(habits, id, nameValue, shortValue).1)
  {
  }

  /** A merge keeps the existing habits as they were, in front, and appends
      exactly the imported habits whose exact name is not among them, in
      their order. */
  lemma ImportMergeSpec(habits: seq<Habit>, imported: seq<Habit>)
    ensures var after := ImportResult(habits, imported, true);
      && |after| >= |habits| && after[..|habits|] == habits
      && after[|habits|..] == NewHabits(imported, Names(habits))
      && (forall h :: h in after[|habits|..] ==> h in imported && h.name !in Names(habits))
      && (forall h :: h in imported && h.name !in Names(habits) ==> h in after[|habits|..])
  {
    var after := ImportResult(habits, imported, true);
    assert after[|habits|..] == NewHabits(imported, Names(habits));
    NewHabitsMembers(imported, Names(habits));
  }

  lemma {:induction false} NewHabitsMembers(imported: seq<Habit>, existing: set<string>)
    ensures forall h :: h in NewHabits(imported, existing) <==> h in imported && h.name !in existing
  {
    if imported != [] {
      var front := imported[..|imported| - 1];
      NewHabitsMembers(front, existing);
      assert imported == front + [imported[|imported| - 1]];
    }
  }

  /** The merge compares names exactly and does not look among the
      imported habits themselves, so it can leave two habits whose names
      differ only in case, which `commandAdd` would have refused. */
  lemma MergeKeepsCaseVariants()
    ensures var habits := [Habit("Run", "", [])];
      DistinctNames(habits)
      && !DistinctNames(ImportResult(habits, [Habit("run", "", [])], true))
  {
    var habits := [Habit("Run", "", [])];
    var imported := [Habit("run", "", [])];
    assert "Run" != "run";
    assert "run" !in Names(habits);
    assert imported[..0] == [];
    assert NewHabits(imported, Names(habits)) == imported;
    var after := ImportResult(habits, imported, true);
    assert after == [Habit("Run", "", []), Habit("run", "", [])];
    assert LowerString("Run") == "run" by {
      assert Lower('R') == 'r';
    }
    assert LowerString("run") == "run";
    assert EqualFold(after[0].name, after[1].name);
  }
}
