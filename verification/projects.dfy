/** The projects section: the static project and filter tables, the
    category filter, the filter buttons' state and the initials drawn on
    each project card. */
module Projects {
  import opened Common

  /** A project card (image and link fields are placeholders and left out). */
  datatype Project = Project(
    id: int,
    title: string,
    category: string,
    tech: seq<string>,
    featured: bool)

  /** A filter button: its caption and the category value it selects. */
  datatype Filter = Filter(caption: string, value: string)

  /** The filter value that shows every project. */
  const All: string := "all"

  function ProjectIds(ps: seq<Project>): (ids: seq<int>)
    ensures |ids| == |ps|
    ensures forall i :: 0 <= i < |ps| ==> ids[i] == ps[i].id
  {
    seq(|ps|, i requires 0 <= i < |ps| => ps[i].id)
  }

  function FilterValues(fs: seq<Filter>): (vs: seq<string>)
    ensures |vs| == |fs|
    ensures forall i :: 0 <= i < |fs| ==> vs[i] == fs[i].value
  {
    seq(|fs|, i requires 0 <= i < |fs| => fs[i].value)
  }

  /** The project table, in display order. Ids are React keys, so distinct;
      every category has a filter button, and none is the reserved `all`. */
  function AllProjects(): (ps: seq<Project>)
    ensures |ps| == 6
    ensures Distinct(ProjectIds(ps))
    ensures forall i :: 0 <= i < |ps| ==>
      ps[i].category in FilterValues(Filters()) && ps[i].category != All
  {
    assert FilterValues(Filters()) == ["all", "booking", "ui", "web", "animation"];
    [ Project(1, "Travel Booking Engine", "booking",
        ["React.js", "Next.js", "TypeScript", "Node.js", "Express.js"], true),
      Project(2, "Interactive UI Components Library", "ui",
        ["React.js", "TypeScript", "Mantine UI", "Storybook"], true),
      Project(3, "Real-time Dashboard", "web",
        ["React.js", "D3.js", "WebSocket", "CSS3"], false),
      Project(4, "E-commerce Platform", "web",
        ["Next.js", "TypeScript", "Stripe", "PostgreSQL"], false),
      Project(5, "Animation Showcase", "animation",
        ["React.js", "GSAP", "Framer Motion", "CSS3"], false),
      Project(6, "Mobile-First Web App", "web",
        ["React.js", "PWA", "Service Workers", "IndexedDB"], false) ]
  }

  /** The filter buttons, `all` first. Values are React keys, so distinct. */
  function Filters(): (fs: seq<Filter>)
    ensures |fs| == 5
    ensures fs[0].value == All
    ensures Distinct(FilterValues(fs))
  {
    [ Filter("All Projects", "all"),
      Filter("Booking Systems", "booking"),
      Filter("UI Components", "ui"),
      Filter("Web Applications", "web"),
      Filter("Animations", "animation") ]
  }

  /** `a` is `b` with some elements dropped and the rest kept in order. */
  predicate IsSubsequence<T(==)>(a: seq<T>, b: seq<T>)
    decreases |b|
  {
    if |a| == 0 then true
    else if |b| == 0 then false
    else if a[0] == b[0] then IsSubsequence(a[1..], b[1..])
    else IsSubsequence(a, b[1..])
  }

  /** `projects.filter(p => p.category === c)`. */
  function OfCategory(ps: seq<Project>, c: string): (r: seq<Project>)
    ensures forall i :: 0 <= i < |r| ==> r[i].category == c
    ensures forall i :: 0 <= i < |ps| && ps[i].category == c ==> ps[i] in r
    ensures forall p :: p in r ==> p in ps
    ensures IsSubsequence(r, ps)
    ensures (forall i :: 0 <= i < |ps| ==> ps[i].category != c) ==> r == []
    decreases |ps|
  {
    if |ps| == 0 then []
    else
      var rest := OfCategory(ps[1..], c);
      assert forall i :: 1 <= i < |ps| ==> ps[i] == ps[1..][i - 1];
      if ps[0].category == c then
        assert ([ps[0]] + rest)[1..] == rest;
        [ps[0]] + rest
      else rest
  }

  /** `filteredProjects`: everything for `all`, otherwise the projects of
      the selected category in their original order. */
  function FilterProjects(ps: seq<Project>, active: string): (r: seq<Project>)
    ensures active == All ==> r == ps
    ensures active != All ==> forall i :: 0 <= i < |r| ==> r[i].category == active
    ensures active != All ==> forall i :: 0 <= i < |ps| && ps[i].category == active ==> ps[i] in r
    ensures IsSubsequence(r, ps)
    ensures active != All && (forall i :: 0 <= i < |ps| ==> ps[i].category != active) ==> r == []
    ensures active != All ==>
      forall p :: multiset(r)[p] == if p.category == active then multiset(ps)[p] else 0
  {
    if active == All then
      SubsequenceOfItself(ps);
      ps
    else
      OfCategoryCounts(ps, active);
      OfCategory(ps, active)
  }

  /** The filter keeps every copy of a matching project and no copy of any
      other. */
  lemma {:induction false} OfCategoryCounts(ps: seq<Project>, c: string)
    ensures forall p :: multiset(OfCategory(ps, c))[p] == if p.category == c then multiset(ps)[p] else 0
    decreases |ps|
  {
    if |ps| > 0 {
      OfCategoryCounts(ps[1..], c);
      assert ps == [ps[0]] + ps[1..];
      assert multiset(ps) == multiset{ps[0]} + multiset(ps[1..]);
    }
  }

  lemma {:induction false} SubsequenceOfItself<T>(s: seq<T>)
    ensures IsSubsequence(s, s)
    decreases |s|
  {
    if |s| > 0 {
      SubsequenceOfItself(s[1..]);
    }
  }

  /** A subsequence of a repetition-free sequence is repetition-free. */
  lemma {:induction false} SubsequenceKeepsDistinct<T>(a: seq<T>, b: seq<T>)
    requires IsSubsequence(a, b)
    requires Distinct(b)
    ensures Distinct(a)
    decreases |b|
  {
    if |a| > 0 && |b| > 0 {
      assert Distinct(b[1..]);
      if a[0] == b[0] {
        SubsequenceKeepsDistinct(a[1..], b[1..]);
        SubsequenceMembers(a[1..], b[1..]);
        assert forall j :: 1 <= j < |a| ==> a[j] == a[1..][j - 1] && a[j] in b[1..];
      } else {
        SubsequenceKeepsDistinct(a, b[1..]);
      }
    }
  }

  lemma {:induction false} SubsequenceMembers<T>(a: seq<T>, b: seq<T>)
    requires IsSubsequence(a, b)
    ensures forall x :: x in a ==> x in b
    decreases |b|
  {
    if |a| > 0 && |b| > 0 {
      if a[0] == b[0] {
        SubsequenceMembers(a[1..], b[1..]);
        assert a == [a[0]] + a[1..];
      } else {
        SubsequenceMembers(a, b[1..]);
      }
    }
  }

  /** Dropping projects keeps the ids of the remaining ones in order. */
  lemma {:induction false} SubsequenceIds(a: seq<Project>, b: seq<Project>)
    requires IsSubsequence(a, b)
    ensures IsSubsequence(ProjectIds(a), ProjectIds(b))
    decreases |b|
  {
    if |a| > 0 && |b| > 0 {
      assert ProjectIds(b)[1..] == ProjectIds(b[1..]);
      if a[0] == b[0] {
        SubsequenceIds(a[1..], b[1..]);
        assert ProjectIds(a)[1..] == ProjectIds(a[1..]);
      } else {
        SubsequenceIds(a, b[1..]);
        if ProjectIds(a)[0] == ProjectIds(b)[0] {
          SubsequenceWithoutFirst(ProjectIds(a), ProjectIds(b)[1..]);
        }
      }
    }
  }

  /** A subsequence of the tail is a subsequence of the whole. */
  lemma {:induction false} SubsequenceOfTail<T>(a: seq<T>, b: seq<T>)
    requires |b| > 0
    requires IsSubsequence(a, b[1..])
    ensures IsSubsequence(a, b)
    decreases |b|, 0
  {
    if |a| > 0 && a[0] == b[0] {
      SubsequenceWithoutFirst(a, b[1..]);
    }
  }

  /** Dropping the first element of a subsequence keeps it a subsequence. */
  lemma {:induction false} SubsequenceWithoutFirst<T>(a: seq<T>, b: seq<T>)
    requires |a| > 0
    requires IsSubsequence(a, b)
    ensures IsSubsequence(a[1..], b)
    decreases |b|, 1
  {
    if a[0] == b[0] {
      SubsequenceOfTail(a[1..], b);
    } else {
      SubsequenceWithoutFirst(a, b[1..]);
      SubsequenceOfTail(a[1..], b);
    }
  }

  /** Whatever filter is selected, the cards on screen have distinct keys. */
  lemma ShownKeysDistinct(active: string)
    ensures Distinct(ProjectIds(FilterProjects(AllProjects(), active)))
  {
    var r := FilterProjects(AllProjects(), active);
    SubsequenceIds(r, AllProjects());
    SubsequenceKeepsDistinct(ProjectIds(r), ProjectIds(AllProjects()));
  }

  /** The filter bar's state: the selected filter value. */
  function InitialFilter(): (f: string)
    ensures f == Filters()[0].value
  {
    All
  }

  /** Clicking a filter button selects that button's value. */
  function ClickFilter(active: string, button: Filter): (r: string)
    ensures IsActiveButton(r, button)
  {
    button.value
  }

  /** A button is drawn as active iff its value is the selected one. */
  predicate IsActiveButton(active: string, button: Filter) {
    active == button.value
  }

  /** Since the filter values are distinct, at most one button is active. */
  lemma AtMostOneActiveButton(active: string, i: int, j: int)
    requires 0 <= i < |Filters()| && 0 <= j < |Filters()|
    requires IsActiveButton(active, Filters()[i]) && IsActiveButton(active, Filters()[j])
    ensures i == j
  {
  }

  /** After any sequence of clicks the selected value is one of the
      buttons' values, so exactly one button is drawn as active. */
  function ClickAll(active: string, clicks: seq<Filter>): string
    decreases |clicks|
  {
    if |clicks| == 0 then active else ClickAll(ClickFilter(active, clicks[0]), clicks[1..])
  }

  lemma {:induction false} SelectionIsAlwaysAButton(clicks: seq<int>)
    requires forall k :: 0 <= k < |clicks| ==> 0 <= clicks[k] < |Filters()|
    ensures exists i :: (0 <= i < |Filters()| &&
      IsActiveButton(ClickAll(InitialFilter(), ButtonsAt(clicks)), Filters()[i]))
  {
    if |clicks| == 0 {
      assert IsActiveButton(InitialFilter(), Filters()[0]);
    } else {
      var bs := ButtonsAt(clicks);
      LastClickWins(InitialFilter(), bs);
      assert IsActiveButton(ClickAll(InitialFilter(), bs), Filters()[clicks[|clicks| - 1]]);
    }
  }

  function ButtonsAt(idx: seq<int>): (bs: seq<Filter>)
    requires forall k :: 0 <= k < |idx| ==> 0 <= idx[k] < |Filters()|
    ensures |bs| == |idx|
    ensures forall k :: 0 <= k < |idx| ==> bs[k] == Filters()[idx[k]]
  {
    seq(|idx|, k requires 0 <= k < |idx| => Filters()[idx[k]])
  }

  /** The selection is the last button clicked. */
  lemma {:induction false} LastClickWins(active: string, clicks: seq<Filter>)
    requires |clicks| > 0
    ensures ClickAll(active, clicks) == clicks[|clicks| - 1].value
    decreases |clicks|
  {
    if |clicks| > 1 {
      LastClickWins(ClickFilter(active, clicks[0]), clicks[1..]);
    }
  }

  // Card initials: `title.split(' ').map(word => word[0]).join('')`.

  /** `s.split(' ')`: the pieces between single spaces, empty pieces
      included, so there is always one more piece than there are spaces. */
  function Split(s: string): (words: seq<string>)
    ensures |words| >= 1
    ensures forall k :: 0 <= k < |words| ==> ' ' !in words[k]
    decreases |s|
  {
    if |s| == 0 then [""]
    else
      var rest := Split(s[1..]);
      if s[0] == ' ' then [""] + rest
      else [[s[0]] + rest[0]] + rest[1..]
  }

  /** `words.join(' ')`. */
  function Join(words: seq<string>): string
    requires |words| >= 1
    decreases |words|
  {
    if |words| == 1 then words[0] else words[0] + " " + Join(words[1..])
  }

  /** Splitting and joining again gives back the title. */
  lemma {:induction false} JoinSplit(s: string)
    ensures Join(Split(s)) == s
    decreases |s|
  {
    if |s| > 0 {
      JoinSplit(s[1..]);
      var rest := Split(s[1..]);
      if s[0] == ' ' {
        assert ([""] + rest)[1..] == rest;
      } else {
        var w := [[s[0]] + rest[0]] + rest[1..];
        if |rest| == 1 {
          assert Join(w) == [s[0]] + rest[0];
        } else {
          assert w[1..] == rest[1..];
          assert Join(rest) == rest[0] + " " + Join(rest[1..]);
        }
        assert s == [s[0]] + s[1..];
      }
    }
  }

  /** Joining space-free words and splitting again gives back the words. */
  lemma {:induction false} SplitJoin(words: seq<string>)
    requires |words| >= 1
    requires forall k :: 0 <= k < |words| ==> ' ' !in words[k]
    ensures Split(Join(words)) == words
    decreases |words|, |words[0]|
  {
    if |words| == 1 {
      SplitWord(words[0]);
    } else {
      SplitJoin(words[1..]);
      SplitPrefixed(words[0], Join(words[1..]));
      assert [words[0]] + words[1..] == words;
    }
  }

  /** A space-free string is a single word. */
  lemma {:induction false} SplitWord(w: string)
    requires ' ' !in w
    ensures Split(w) == [w]
    decreases |w|
  {
    if |w| > 0 {
      assert ' ' !in w[1..];
      SplitWord(w[1..]);
      assert [w[0]] + w[1..] == w;
    }
  }

  /** Splitting `w + " " + rest` for a space-free `w` puts `w` in front of
      the pieces of `rest`. */
  lemma {:induction false} SplitPrefixed(w: string, rest: string)
    requires ' ' !in w
    ensures Split(w + " " + rest) == [w] + Split(rest)
    decreases |w|
  {
    if |w| == 0 {
      assert w + " " + rest == [' '] + rest;
      assert (w + " " + rest)[1..] == rest;
    } else {
      assert ' ' !in w[1..];
      SplitPrefixed(w[1..], rest);
      assert (w + " " + rest)[1..] == w[1..] + " " + rest;
      assert [w[0]] + w[1..] == w;
    }
  }

  /** `word[0]` joined into a string: an empty piece yields `undefined`,
      which `join` writes as nothing. */
  function FirstChar(word: string): (r: string)
    ensures |r| == if word == "" then 0 else 1
    ensures |r| == 1 ==> r[0] == word[0]
  {
    if word == "" then "" else [word[0]]
  }

  function JoinFirstChars(words: seq<string>): string
    decreases |words|
  {
    if |words| == 0 then "" else FirstChar(words[0]) + JoinFirstChars(words[1..])
  }

  /** The number of non-empty pieces. */
  function NonEmptyCount(words: seq<string>): nat
    decreases |words|
  {
    if |words| == 0 then 0
    else (if words[0] == "" then 0 else 1) + NonEmptyCount(words[1..])
  }

  /** The initials drawn on a project card: one character per non-empty
      space-separated word of the title, never a space. */
  function Initials(title: string): (r: string)
    ensures |r| == NonEmptyCount(Split(title)) <= |Split(title)|
    ensures ' ' !in r
    ensures forall k :: 0 <= k < |Split(title)| && Split(title)[k] != "" ==>
      NonEmptyCount(Split(title)[..k]) < |r| &&
      r[NonEmptyCount(Split(title)[..k])] == Split(title)[k][0]
  {
    InitialsOfWords(Split(title));
    InitialsHaveNoSpace(Split(title));
    InitialsInOrder(Split(title));
    JoinFirstChars(Split(title))
  }

  /** One initial per non-empty word; each initial is a word's first
      character, in word order. */
  lemma {:induction false} InitialsOfWords(words: seq<string>)
    ensures |JoinFirstChars(words)| == NonEmptyCount(words)
    ensures NonEmptyCount(words) <= |words|
    ensures (forall k :: 0 <= k < |words| ==> words[k] != "") ==>
      |JoinFirstChars(words)| == |words| &&
      forall k :: 0 <= k < |words| ==> JoinFirstChars(words)[k] == words[k][0]
    decreases |words|
  {
    if |words| > 0 {
      InitialsOfWords(words[1..]);
      if forall k :: 0 <= k < |words| ==> words[k] != "" {
        assert forall k :: 1 <= k < |words| ==> words[k] == words[1..][k - 1];
      }
    }
  }

  /** Whatever the pieces, the initial of a non-empty piece sits right
      after the initials of the non-empty pieces before it. */
  lemma {:induction false} InitialsContent(words: seq<string>, k: int)
    requires 0 <= k < |words| && words[k] != ""
    ensures NonEmptyCount(words[..k]) < |JoinFirstChars(words)|
    ensures JoinFirstChars(words)[NonEmptyCount(words[..k])] == words[k][0]
    decreases k
  {
    InitialsOfWords(words);
    if k == 0 {
      assert words[..0] == [];
    } else {
      InitialsContent(words[1..], k - 1);
      assert words[1..][..k - 1] == words[..k][1..];
      assert words[..k][0] == words[0];
    }
  }

  /** `InitialsContent` for every non-empty piece at once. */
  lemma InitialsInOrder(words: seq<string>)
    ensures forall k :: 0 <= k < |words| && words[k] != "" ==>
      NonEmptyCount(words[..k]) < |JoinFirstChars(words)| &&
      JoinFirstChars(words)[NonEmptyCount(words[..k])] == words[k][0]
  {
    forall k | 0 <= k < |words| && words[k] != ""
      ensures NonEmptyCount(words[..k]) < |JoinFirstChars(words)|
      ensures JoinFirstChars(words)[NonEmptyCount(words[..k])] == words[k][0]
    {
      InitialsContent(words, k);
    }
  }

  /** For a title whose words are separated by single spaces, the initials
      are exactly the first letter of each word. */
  lemma TitleInitials(words: seq<string>)
    requires |words| >= 1
    requires forall k :: 0 <= k < |words| ==> words[k] != "" && ' ' !in words[k]
    ensures |Initials(Join(words))| == |words|
    ensures forall k :: 0 <= k < |words| ==> Initials(Join(words))[k] == words[k][0]
  {
    SplitJoin(words);
    InitialsOfWords(words);
  }

  /** No initial is a space. */
  lemma {:induction false} InitialsHaveNoSpace(words: seq<string>)
    requires forall k :: 0 <= k < |words| ==> ' ' !in words[k]
    ensures ' ' !in JoinFirstChars(words)
    decreases |words|
  {
    if |words| > 0 {
      InitialsHaveNoSpace(words[1..]);
      if words[0] != "" {
        assert words[0][0] in words[0];
      }
    }
  }

  /** The first card reads "TBE". */
  lemma TravelBookingEngineInitials()
    ensures Initials("Travel Booking Engine") == "TBE"
  {
    var words := ["Travel", "Booking", "Engine"];
    assert Join(words) == "Travel Booking Engine";
    TitleInitials(words);
    assert |Initials(Join(words))| == 3;
  }
}
