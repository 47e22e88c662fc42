/**
 * The handlers of main.py over its mutable state: the module-level `courses`
 * dict and the file it is saved to (class Bot), and, per user, the state of
 * the add conversation together with the `add_nome` / `add_area` entries of
 * `context.user_data` (class Session).
 */
module CourseBot {
  import opened Seqs
  import opened Text
  import opened OrderedDict
  import opened CourseCatalog

  /** The states the add handlers return: AD_NOME, AD_AREA, AD_LINK and ConversationHandler.END. */
  datatype Stage = AdNome | AdArea | AdLink | End

  /** One user's add conversation: the state it is in and what `user_data` holds for it. */
  class Session {
    var stage: Stage
    var addNome: Option<string>    // user_data["add_nome"], when present
    var addArea: Option<string>    // user_data["add_area"], when present

    /** Whatever the steps stored is a course name and an area. */
    ghost predicate Valid()
      reads this
    {
      && (addNome.Some? ==> IsCourseName(addNome.value))
      && (addArea.Some? ==> IsArea(addArea.value))
    }

    /** A user who has not started a conversation: nothing in user_data. */
    constructor ()
      ensures Valid()
      ensures stage == End && addNome == None && addArea == None
    {
      stage := End;
      addNome := None;
      addArea := None;
    }
  }

  class Bot {
    var courses: Catalog           // the module-level `courses` dict
    var stored: Option<Catalog>    // the contents of cursos.json; None while the file does not exist

    ghost predicate Valid()
      reads this
    {
      && OrderedDict.Valid(courses)
      && (stored.Some? ==> OrderedDict.Valid(stored.value))
    }

    /** `courses = load_courses()` at import: the saved catalog, or an empty one when there is no file. */
    constructor (file: Option<Catalog>)
      requires file.Some? ==> OrderedDict.Valid(file.value)
      ensures Valid()
      ensures stored == file
      ensures courses == if file.Some? then file.value else Empty()
    {
      stored := file;
      courses := if file.Some? then file.value else Empty();
    }

    /** `save_courses(courses)`: the file is replaced by the whole catalog. */
    method SaveCourses()
      requires Valid()
      modifies this`stored
      ensures Valid()
      ensures stored == Some(courses)
    {
      stored := Some(courses);
    }

    /** `add_course_start`: ask for the name and enter AD_NOME; user_data is left as it is. */
    method AddCourseStart(s: Session) returns (r: Reply, next: Stage)
      requires s.Valid()
      modifies s`stage
      ensures s.Valid()
      ensures r == AskName && next == AdNome && s.stage == next
    {
      r, next := AskName, AdNome;
      s.stage := next;
    }

    /**
     * `add_course_nome`: a message that is empty once stripped re-prompts and
     * stores nothing; otherwise the stripped name is stored and the form moves to AD_AREA.
     */
    method AddCourseNome(s: Session, text: string) returns (r: Reply, next: Stage)
      requires s.Valid()
      modifies s`stage, s`addNome
      ensures s.Valid()
      ensures s.stage == next
      ensures next == AdNome <==> AllSpace(text)
      ensures next == AdNome ==> r == InvalidName && s.addNome == old(s.addNome)
      ensures next != AdNome ==> next == AdArea && r == AskArea && s.addNome == Some(Trim(text))
    {
      var nome := Trim(text);
      if nome == [] {
        r, next := InvalidName, AdNome;
      } else {
        s.addNome := Some(nome);
        r, next := AskArea, AdArea;
      }
      s.stage := next;
    }

    /**
     * `add_course_area`: the message is stripped and lowered; exactly the five
     * area values are stored and move the form to AD_LINK, anything else re-prompts.
     */
    method AddCourseArea(s: Session, text: string) returns (r: Reply, next: Stage)
      requires s.Valid()
      modifies s`stage, s`addArea
      ensures s.Valid()
      ensures s.stage == next
      ensures next == AdLink <==> IsArea(Lower(Trim(text)))
      ensures next == AdLink ==> r == AskLink && s.addArea == Some(Lower(Trim(text)))
      ensures next != AdLink ==> next == AdArea && r == InvalidArea && s.addArea == old(s.addArea)
    {
      var area := Lower(Trim(text));
      if area !in AreaNames {
        r, next := InvalidArea, AdArea;
      } else {
        s.addArea := Some(area);
        r, next := AskLink, AdLink;
      }
      s.stage := next;
    }

    /**
     * `add_course_link`: writes `courses[nome] = {area, link}` with the stripped
     * link, saves the whole catalog and ends the conversation. Reading a key that
     * user_data lacks raises before anything is written, so then nothing changes.
     */
    method AddCourseLink(s: Session, text: string) returns (r: Reply, next: Stage)
      requires Valid() && s.Valid()
      modifies this, s`stage
      ensures Valid() && s.Valid()
      ensures s.addNome.None? ==> r == KeyError("add_nome")
      ensures s.addNome.Some? && s.addArea.None? ==> r == KeyError("add_area")
      ensures r.KeyError? ==>
        && next == old(s.stage) && s.stage == next
        && courses == old(courses) && stored == old(stored)
      ensures s.addNome.Some? && s.addArea.Some? ==>
        && r == Added(s.addNome.value, s.addArea.value)
        && courses == Put(old(courses), s.addNome.value, Course(s.addArea.value, Trim(text)))
        && stored == Some(courses)
        && next == End && s.stage == End
      ensures r.Added? && Conforms(old(courses)) ==> Conforms(courses)
    {
      var link := Trim(text);
      if s.addNome.None? {
        r, next := KeyError("add_nome"), s.stage;
        return;
      }
      if s.addArea.None? {
        r, next := KeyError("add_area"), s.stage;
        return;
      }
      var nome, area := s.addNome.value, s.addArea.value;
      if Conforms(courses) {
        ConformsAfterPut(courses, nome, Course(area, link));
      }
      courses := Put(courses, nome, Course(area, link));
      SaveCourses();
      r, next := Added(nome, area), End;
      s.stage := next;
    }

    /** `list_courses`: groups the course names by area while scanning the catalog, then renders the groups. */
    method ListCourses() returns (r: Reply)
      requires Valid()
      ensures r == ListingReply(courses)
    {
      if |courses.keys| == 0 {
        return NoneRegistered;
      }
      var grouped := GroupByArea(courses.keys, courses.values);
      var msg := RenderGrouped(grouped);
      assert GroupsOf(grouped) == Grouped(courses);
      r := Listing(msg + [Footer]);
    }
  }

  /**
   * The first loop of `list_courses`: `grouped.setdefault(area, []).append(nome)`
   * for each course in catalog order.
   */
  method GroupByArea(ks: seq<string>, vals: map<string, Course>) returns (grouped: Dict<seq<string>>)
    requires forall k :: k in ks ==> k in vals
    ensures GroupedBy(grouped, ks, vals)
  {
    grouped := Empty();
    var i := 0;
    assert AreasOf(ks[..0], vals) == [];
    while i < |ks|
      invariant 0 <= i <= |ks|
      invariant GroupedBy(grouped, ks[..i], vals)
    {
      var nome := ks[i];
      var area := vals[nome].area;
      GroupStep(grouped, ks, i, vals);
      grouped := Put(grouped, area, SetDefault(grouped, area) + [nome]);
      i := i + 1;
    }
    assert ks[..|ks|] == ks;
  }

  /** The nested loops of `list_courses`: after the title, each area heading followed by its course names. */
  method RenderGrouped(grouped: Dict<seq<string>>) returns (msg: seq<Line>)
    requires OrderedDict.Valid(grouped)
    ensures msg == [Title] + Render(GroupsOf(grouped))
  {
    ghost var gs := GroupsOf(grouped);
    var areas := grouped.keys;
    msg := [Title];
    var j := 0;
    while j < |areas|
      invariant 0 <= j <= |areas| == |gs|
      invariant msg == [Title] + Render(gs[..j])
    {
      var area := areas[j];
      var nomes := grouped.values[area];
      ghost var done := Render(gs[..j]);
      msg := AppendNames(msg + [AreaHeader(area)], nomes);
      assert msg == [Title] + (done + [AreaHeader(area)] + Items(nomes));
      assert gs[j] == Group(area, nomes);
      RenderSnoc(gs, j);
      j := j + 1;
    }
    assert gs[..j] == gs;
  }

  /** The inner loop of `list_courses`: one line per course name of an area, in order. */
  method AppendNames(head: seq<Line>, nomes: seq<string>) returns (msg: seq<Line>)
    ensures msg == head + Items(nomes)
  {
    msg := head;
    var k := 0;
    while k < |nomes|
      invariant 0 <= k <= |nomes|
      invariant msg == head + Items(nomes[..k])
    {
      assert Items(nomes[..k + 1]) == Items(nomes[..k]) + [Item(nomes[k])];
      msg := msg + [Item(nomes[k])];
      k := k + 1;
    }
    assert nomes[..k] == nomes;
  }

  /** The groups of a `grouped` dict, in its iteration order. */
  ghost function GroupsOf(grouped: Dict<seq<string>>): seq<Group>
    requires OrderedDict.Valid(grouped)
  {
    seq(|grouped.keys|, i requires 0 <= i < |grouped.keys| => Group(grouped.keys[i], grouped.values[grouped.keys[i]]))
  }

  /**
   * The add conversation run through its three steps, as the states the handlers
   * return chain them: a usable name, a valid area and then any link commit the
   * course, save the catalog, and `/curso` with the stored name finds the link.
   */
  method AddConversation(bot: Bot, s: Session, nomeText: string, areaText: string, linkText: string)
    returns (replies: seq<Reply>)
    requires bot.Valid() && s.Valid()
    requires Trim(nomeText) != []
    requires IsArea(Lower(Trim(areaText)))
    modifies bot, s
    ensures bot.Valid() && s.Valid() && s.stage == End
    ensures bot.courses == Put(old(bot.courses), Trim(nomeText), Course(Lower(Trim(areaText)), Trim(linkText)))
    ensures bot.stored == Some(bot.courses)
    ensures replies == [AskName, AskArea, AskLink, Added(Trim(nomeText), Lower(Trim(areaText)))]
    ensures GetCourseLink(bot.courses, [Trim(nomeText)]) == Found(Trim(nomeText), Trim(linkText))
  {
    var r0, st0 := bot.AddCourseStart(s);
    var r1, st1 := bot.AddCourseNome(s, nomeText);
    assert st1 == AdArea && s.addNome == Some(Trim(nomeText));
    var r2, st2 := bot.AddCourseArea(s, areaText);
    assert st2 == AdLink && s.addArea == Some(Lower(Trim(areaText)));
    ghost var before := bot.courses;
    var r3, st3 := bot.AddCourseLink(s, linkText);
    assert s.addNome == Some(Trim(nomeText));
    assert s.addArea == Some(Lower(Trim(areaText)));
    assert bot.courses == Put(before, Trim(nomeText), Course(Lower(Trim(areaText)), Trim(linkText)));
    replies := [r0, r1, r2, r3];
    LookupByStoredName(old(bot.courses), nomeText, Course(Lower(Trim(areaText)), Trim(linkText)));
  }
}
