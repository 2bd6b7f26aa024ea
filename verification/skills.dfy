/** The skills section: the static skill and category tables and the
    category-colour lookup that styles each skill's badge and bar. */
module Skills {
  import opened Common

  /** A skill row; `level` is drawn as a percentage width. */
  datatype Skill = Skill(name: string, level: int, category: string)

  /** A category and the gradient classes its badge uses. */
  datatype Category = Category(name: string, color: string)

  /** The colour used when no category matches. */
  const DefaultColor: string := "from-primary to-secondary"

  function SkillNames(ss: seq<Skill>): (ns: seq<string>)
    ensures |ns| == |ss|
    ensures forall i :: 0 <= i < |ss| ==> ns[i] == ss[i].name
  {
    seq(|ss|, i requires 0 <= i < |ss| => ss[i].name)
  }

  function CategoryNames(cs: seq<Category>): (ns: seq<string>)
    ensures |ns| == |cs|
    ensures forall i :: 0 <= i < |cs| ==> ns[i] == cs[i].name
  {
    seq(|cs|, i requires 0 <= i < |cs| => cs[i].name)
  }

  /** The skill table. Names are React keys, so distinct; every level is a
      valid percentage; every category is listed in `AllCategories`. */
  function AllSkills(): (ss: seq<Skill>)
    ensures |ss| == 12
    ensures Distinct(SkillNames(ss))
    ensures forall i :: 0 <= i < |ss| ==> 0 <= ss[i].level <= 100
    ensures forall i :: 0 <= i < |ss| ==> ss[i].category in CategoryNames(AllCategories())
  {
    assert CategoryNames(AllCategories()) ==
      ["Frontend", "Language", "Styling", "Tools", "Backend", "UI Library", "Animation", "Markup"];
    [ Skill("React.js", 95, "Frontend"),
      Skill("Next.js", 90, "Frontend"),
      Skill("TypeScript", 88, "Language"),
      Skill("JavaScript (ES6+)", 92, "Language"),
      Skill("HTML5", 95, "Markup"),
      Skill("CSS3", 90, "Styling"),
      Skill("GSAP", 80, "Animation"),
      Skill("Mantine UI", 85, "UI Library"),
      Skill("Angular", 75, "Frontend"),
      Skill("Node.js", 78, "Backend"),
      Skill("Express.js", 75, "Backend"),
      Skill("Git & GitHub", 88, "Tools") ]
  }

  /** The category table. Names are distinct; no colour is empty or the
      fallback colour. */
  function AllCategories(): (cs: seq<Category>)
    ensures |cs| == 8
    ensures Distinct(CategoryNames(cs))
    ensures forall i :: 0 <= i < |cs| ==> cs[i].color != "" && cs[i].color != DefaultColor
  {
    [ Category("Frontend", "from-primary to-primary-glow"),
      Category("Language", "from-secondary to-secondary-glow"),
      Category("Styling", "from-accent to-accent-glow"),
      Category("Tools", "from-muted to-foreground"),
      Category("Backend", "from-secondary to-primary"),
      Category("UI Library", "from-accent to-secondary"),
      Category("Animation", "from-primary to-accent"),
      Category("Markup", "from-accent to-primary") ]
  }

  /** `categories.find(c => c.name === name)`: the first category with that
      name, or `None`. */
  function Find(cs: seq<Category>, name: string): (r: Option<Category>)
    ensures r.None? <==> forall i :: 0 <= i < |cs| ==> cs[i].name != name
    ensures r.Some? ==>
      exists i :: 0 <= i < |cs| && cs[i] == r.value && cs[i].name == name &&
        forall j :: 0 <= j < i ==> cs[j].name != name
    decreases |cs|
  {
    if |cs| == 0 then None
    else if cs[0].name == name then Some(cs[0])
    else
      assert forall i :: 1 <= i < |cs| ==> cs[i] == cs[1..][i - 1];
      Find(cs[1..], name)
  }

  /** `find(...)?.color || default`: an absent category and an empty
      colour string both fall back to the default. */
  function CategoryColor(cs: seq<Category>, name: string): (color: string)
    ensures (forall i :: 0 <= i < |cs| ==> cs[i].name != name) ==> color == DefaultColor
    ensures (exists i :: 0 <= i < |cs| && cs[i].name == name) ==>
      exists i :: 0 <= i < |cs| && cs[i].name == name &&
        (forall j :: 0 <= j < i ==> cs[j].name != name) &&
        color == (if cs[i].color == "" then DefaultColor else cs[i].color)
    ensures color != ""
  {
    match Find(cs, name)
    case None => DefaultColor
    case Some(c) => if c.color == "" then DefaultColor else c.color
  }

  /** With distinct names, "first match" is "the match": a listed category
      with a non-empty colour gets exactly its own colour. */
  lemma UniqueMatchColor(cs: seq<Category>, i: int)
    requires Distinct(CategoryNames(cs))
    requires 0 <= i < |cs|
    requires cs[i].color != ""
    ensures CategoryColor(cs, cs[i].name) == cs[i].color
  {
  }

  /** No listed skill is drawn with the fallback colour: each gets the
      colour of its own category. */
  lemma ListedSkillsUseTheirCategoryColor(s: int)
    requires 0 <= s < |AllSkills()|
    ensures exists i :: (0 <= i < |AllCategories()| &&
      AllCategories()[i].name == AllSkills()[s].category &&
      CategoryColor(AllCategories(), AllSkills()[s].category) == AllCategories()[i].color)
    ensures CategoryColor(AllCategories(), AllSkills()[s].category) != DefaultColor
  {
    var cs := AllCategories();
    var name := AllSkills()[s].category;
    assert name in CategoryNames(cs);
    var i :| 0 <= i < |cs| && CategoryNames(cs)[i] == name;
    UniqueMatchColor(cs, i);
  }
}
