/** The search box and the status picker of the admin dashboard: two
    successive masks over the project rows. */
module Search {
  import opened Records
  import opened Queries

  /** The status picker: "All" or one of the four statuses. */
  datatype StatusChoice = All | Only(status: Status)

  /** ASCII lower case; every other character is left alone. */
  function LowerChar(c: char): char {
    if 'A' <= c <= 'Z' then (c as int + 32) as char else c
  }

  predicate IsUpper(c: char) {
    'A' <= c <= 'Z'
  }

  /** `x` and `y` are the same character, or the same ASCII letter in two cases. */
  predicate SameIgnoringCase(x: char, y: char) {
    || x == y
    || (IsUpper(x) && y as int == x as int + 32)
    || (IsUpper(y) && x as int == y as int + 32)
  }

  /** Every character of `s` put in lower case: no capital letter is left,
      each character is kept or replaced by its own lower-case letter, and
      nothing but a capital letter changes. */
  function Lower(s: string): (r: string)
    ensures |r| == |s|
    ensures forall i :: 0 <= i < |r| ==> !IsUpper(r[i])
    ensures forall i :: 0 <= i < |s| ==> SameIgnoringCase(s[i], r[i])
    ensures forall i :: 0 <= i < |s| && !IsUpper(s[i]) ==> r[i] == s[i]
  {
    seq(|s|, i requires 0 <= i < |s| => LowerChar(s[i]))
  }

  /** Lower-casing twice is lower-casing once. */
  lemma LowerIdempotent(s: string)
    ensures Lower(Lower(s)) == Lower(s)
  {
    var once := Lower(s);
    var twice := Lower(once);
    forall i | 0 <= i < |s| ensures twice[i] == once[i] {
      assert !IsUpper(once[i]);
    }
  }

  lemma LowerCharSame(x: char, y: char)
    ensures LowerChar(x) == LowerChar(y) <==> SameIgnoringCase(x, y)
  {
  }

  /** Two texts have the same lower-case form exactly when they agree at
      every position up to the case of ASCII letters. */
  lemma LowerEqual(a: string, b: string)
    ensures Lower(a) == Lower(b) <==>
      |a| == |b| && forall i :: 0 <= i < |a| ==> SameIgnoringCase(a[i], b[i])
  {
    if |a| == |b| {
      forall i | 0 <= i < |a|
        ensures Lower(a)[i] == Lower(b)[i] <==> SameIgnoringCase(a[i], b[i])
      {
        assert Lower(a)[i] == LowerChar(a[i]) && Lower(b)[i] == LowerChar(b[i]);
        LowerCharSame(a[i], b[i]);
      }
      if forall i :: 0 <= i < |a| ==> SameIgnoringCase(a[i], b[i]) {
        assert forall i :: 0 <= i < |a| ==> Lower(a)[i] == Lower(b)[i];
      }
    }
  }

  /** `pattern` occurs in `s` starting at position `i`. */
  predicate OccursAt(pattern: string, s: string, i: nat) {
    i + |pattern| <= |s| && s[i..i + |pattern|] == pattern
  }

  /** `pattern` occurs as a contiguous piece of `s`. */
  predicate IsInfix(pattern: string, s: string) {
    exists i: nat :: i <= |s| && OccursAt(pattern, s, i)
  }

  /** The title contains the search text, ignoring case. */
  predicate TitleMatches(title: string, search: string) {
    IsInfix(Lower(search), Lower(title))
  }

  function TitleHas(search: string): Project -> bool {
    (p: Project) => TitleMatches(p.details.title, search)
  }

  function StatusIs(status: Status): Project -> bool {
    (p: Project) => p.details.status == status
  }

  /** What a row must satisfy to be shown: an empty search keeps every
      title, "All" keeps every status. */
  predicate Shown(p: Project, search: string, choice: StatusChoice) {
    && (search == [] || TitleMatches(p.details.title, search))
    && (choice.All? || p.details.status == choice.status)
  }

  function IsShown(search: string, choice: StatusChoice): Project -> bool {
    (p: Project) => Shown(p, search, choice)
  }

  /** The search mask, applied when the search text is not empty, and then
      the status mask, applied when the picker is not "All". */
  function Filter(rows: seq<Project>, search: string, choice: StatusChoice): (r: seq<Project>)
    ensures forall p :: p in r <==> p in rows && Shown(p, search, choice)
    ensures search == [] && choice == All ==> r == rows
  {
    var bySearch := if search != [] then Select(rows, TitleHas(search)) else rows;
    if choice.Only? then Select(bySearch, StatusIs(choice.status)) else bySearch
  }

  /** The two masks together select exactly the rows one single mask over
      the combined condition selects. */
  lemma FilterIsOnePass(rows: seq<Project>, search: string, choice: StatusChoice)
    ensures Filter(rows, search, choice) == Select(rows, IsShown(search, choice))
  {
    var shown := IsShown(search, choice);
    if search != [] && choice.Only? {
      SelectTwice(rows, TitleHas(search), StatusIs(choice.status), shown);
    } else if search != [] {
      SelectSame(rows, TitleHas(search), shown);
    } else if choice.Only? {
      SelectSame(rows, StatusIs(choice.status), shown);
    } else {
      SelectAll(rows, shown);
    }
  }

  lemma SubsequenceOfItself<T>(xs: seq<T>)
    ensures IsSubsequence(xs, xs)
  {
  }

  /** The filtered rows keep their table order: each mask keeps the order
      of what it is given. */
  lemma FilterKeepsOrder(rows: seq<Project>, search: string, choice: StatusChoice)
    ensures IsSubsequence(Filter(rows, search, choice), rows)
  {
    var bySearch := if search != [] then Select(rows, TitleHas(search)) else rows;
    if search != [] {
      SelectKeepsOrder(rows, TitleHas(search));
    } else {
      SubsequenceOfItself(rows);
    }
    if choice.Only? {
      SelectKeepsOrder(bySearch, StatusIs(choice.status));
    } else {
      SubsequenceOfItself(bySearch);
    }
    SubsequenceTransitive(Filter(rows, search, choice), bySearch, rows);
  }

  /** Filtering an already filtered table changes nothing. */
  lemma FilterIdempotent(rows: seq<Project>, search: string, choice: StatusChoice)
    ensures Filter(Filter(rows, search, choice), search, choice) == Filter(rows, search, choice)
  {
    var once := Filter(rows, search, choice);
    FilterIsOnePass(rows, search, choice);
    FilterIsOnePass(once, search, choice);
    SelectAll(once, IsShown(search, choice));
  }

  /** Two searches that differ only in the case of ASCII letters show the same rows. */
  lemma FilterIgnoresCase(rows: seq<Project>, a: string, b: string, choice: StatusChoice)
    requires |a| == |b| && forall i :: 0 <= i < |a| ==> SameIgnoringCase(a[i], b[i])
    ensures Filter(rows, a, choice) == Filter(rows, b, choice)
  {
    LowerEqual(a, b);
    FilterIsOnePass(rows, a, choice);
    FilterIsOnePass(rows, b, choice);
    assert a == [] <==> b == [];
    SelectSame(rows, IsShown(a, choice), IsShown(b, choice));
  }

  /** Searching "alpha" or "ALPHA" over the titles "Alpha Survey" and
      "Beta Study" shows the first row only. */
  lemma SearchExample(alpha: Project, beta: Project, search: string)
    requires alpha.details.title == "Alpha Survey" && beta.details.title == "Beta Study"
    requires search == "alpha" || search == "ALPHA"
    ensures Filter([alpha, beta], search, All) == [alpha]
  {
    ExampleMask(alpha, beta, search);
    SelectFirstOfTwo(alpha, beta, TitleHas(search));
  }

  lemma ExampleMask(alpha: Project, beta: Project, search: string)
    requires alpha.details.title == "Alpha Survey" && beta.details.title == "Beta Study"
    requires search == "alpha" || search == "ALPHA"
    ensures TitleHas(search)(alpha) && !TitleHas(search)(beta)
  {
    ExampleTitles(search);
  }

  lemma SelectFirstOfTwo(alpha: Project, beta: Project, f: Project -> bool)
    requires f(alpha) && !f(beta)
    ensures Select([alpha, beta], f) == [alpha]
  {
    assert [alpha, beta][1..] == [beta];
    assert [beta][1..] == [];
  }

  lemma ExampleTitles(search: string)
    requires search == "alpha" || search == "ALPHA"
    ensures TitleMatches("Alpha Survey", search)
    ensures !TitleMatches("Beta Study", search)
  {
    LowerAlpha();
    AlphaSurveyHasAlpha();
    BetaStudyLacksAlpha();
  }

  lemma AlphaSurveyHasAlpha()
    ensures IsInfix("alpha", Lower("Alpha Survey"))
  {
    var t := Lower("Alpha Survey");
    forall k | 0 <= k < 5 ensures t[k] == "alpha"[k] {
      assert t[k] == LowerChar("Alpha Survey"[k]);
    }
    assert t[0..5] == "alpha";
    assert OccursAt("alpha", t, 0);
  }

  lemma BetaStudyLacksAlpha()
    ensures !IsInfix("alpha", Lower("Beta Study"))
  {
    var s := "Beta Study";
    var t := Lower(s);
    forall i: nat | i <= |t| ensures !OccursAt("alpha", t, i) {
      if i + 5 <= |t| {
        if i == 3 {
          assert t[4] == LowerChar(s[4]) == ' ';
          assert t[i..i + 5][1] == t[4];
        } else {
          assert t[i] == LowerChar(s[i]) != 'a';
          assert t[i..i + 5][0] == t[i];
        }
      }
    }
  }

  lemma LowerAlpha() ensures Lower("alpha") == "alpha" && Lower("ALPHA") == "alpha" { }
}
