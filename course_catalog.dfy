/**
 * The course catalog of main.py as values: a course record, the catalog (a
 * dict from course name to record), the replies the handlers send, the
 * read-only lookup `/curso <args...>`, and the listing that groups course
 * names by area, with what the source promises about each.
 */
module CourseCatalog {
  import opened Seqs
  import opened Text
  import opened OrderedDict

  /** The record `{"area": area, "link": link}` stored under a course name. */
  datatype Course = Course(area: string, link: string)

  /** The catalog: the module-level `courses` dict. */
  type Catalog = Dict<Course>

  /** The five area values the add form accepts, as compared after lowering. */
  const AreaNames: seq<string> := ["humanas", "matematica", "ciencias da natureza", "redacao", "linguagens"]

  predicate IsArea(a: string)
  {
    a in AreaNames
  }

  /** A course name as the add form stores it: stripped and not empty. */
  predicate IsCourseName(n: string)
  {
    n != [] && IsTrimmed(n)
  }

  /** A catalog every entry of which could have been written by the add form. */
  predicate Conforms(c: Catalog)
    requires Valid(c)
  {
    forall k :: k in c.keys ==> IsCourseName(k) && IsArea(c.values[k].area)
  }

  /** One line of the listing message: its title, an area heading, a course name, its closing hint. */
  datatype Line = Title | AreaHeader(area: string) | Item(name: string) | Footer

  /** What a handler replies, with the data the reply text shows. */
  datatype Reply =
    | AskName                              // add_course_start
    | InvalidName                          // name step, empty name
    | AskArea                              // name step accepted
    | InvalidArea                          // area step, unknown area
    | AskLink                              // area step accepted
    | Added(nome: string, area: string)    // link step committed
    | KeyError(key: string)                // link step without the key in user_data
    | NoneRegistered                       // listing of an empty catalog
    | Listing(lines: seq<Line>)            // listing of a non-empty catalog
    | Usage                                // /curso with no argument
    | Found(nome: string, link: string)    // /curso hit
    | NotFound(nome: string)               // /curso miss

  /** The key `/curso` looks up: the arguments joined by single spaces, then stripped. */
  function LookupKey(args: seq<string>): string
  {
    Trim(Join(args, " "))
  }

  /**
   * `get_course_link`: with no argument the usage reply; otherwise the course's
   * link when the lookup key is a course name, and "not found" naming the key when it is not.
   */
  function GetCourseLink(courses: Catalog, args: seq<string>): (r: Reply)
    ensures r.Usage? <==> args == []
    ensures r.Found? <==> args != [] && LookupKey(args) in courses.values
    ensures r.Found? ==> r.nome == LookupKey(args) && r.link == courses.values[r.nome].link
    ensures r.NotFound? ==> r.nome == LookupKey(args)
    ensures r.Usage? || r.Found? || r.NotFound?
  {
    if args == [] then Usage
    else
      var nome := LookupKey(args);
      if nome in courses.values then Found(nome, courses.values[nome].link) else NotFound(nome)
  }

  /** Looking up a course just written, by any arguments that join to its name, finds its link. */
  lemma LookupAfterPut(c: Catalog, nome: string, course: Course, args: seq<string>)
    requires Valid(c)
    requires args != [] && LookupKey(args) == nome
    ensures GetCourseLink(Put(c, nome, course), args) == Found(nome, course.link)
  {
    assert Get(Put(c, nome, course), nome) == Some(course);
  }

  /** A write under another name does not change what a lookup replies. */
  lemma LookupAfterOtherPut(c: Catalog, nome: string, course: Course, args: seq<string>)
    requires Valid(c)
    requires args != [] && LookupKey(args) != nome
    ensures GetCourseLink(Put(c, nome, course), args) == GetCourseLink(c, args)
  {
    var key := LookupKey(args);
    assert Get(Put(c, nome, course), key) == Get(c, key);
  }

  /** A name stored by the add form is found by `/curso` given that name as its one argument. */
  lemma LookupByStoredName(c: Catalog, text: string, course: Course)
    requires Valid(c)
    ensures GetCourseLink(Put(c, Trim(text), course), [Trim(text)]) == Found(Trim(text), course.link)
  {
    TrimIdempotent(text);
    assert Join([Trim(text)], " ") == Trim(text);
    LookupAfterPut(c, Trim(text), course, [Trim(text)]);
  }

  /** Writing a stripped, non-empty name with one of the five areas keeps every entry well-formed. */
  lemma ConformsAfterPut(c: Catalog, nome: string, course: Course)
    requires Valid(c) && Conforms(c)
    requires IsCourseName(nome) && IsArea(course.area)
    ensures Conforms(Put(c, nome, course))
  {
    var after := Put(c, nome, course);
    forall k | k in after.keys ensures IsCourseName(k) && IsArea(after.values[k].area) {
      if k != nome {
        assert Get(after, k) == Get(c, k);
      }
    }
  }

  /**
   * `/curso` followed by the words of a stored name finds it, when the name's
   * words are separated by single spaces: those words are its pieces between spaces.
   */
  lemma LookupByWords(c: Catalog, name: string, course: Course)
    requires Valid(c) && IsCourseName(name)
    requires forall w :: w in Split(name, ' ') ==> w != [] && !exists i :: 0 <= i < |w| && IsSpace(w[i])
    ensures GetCourseLink(Put(c, name, course), Split(name, ' ')) == Found(name, course.link)
  {
    JoinSplit(name, ' ');
    TrimOfTrimmed(name);
    LookupAfterPut(c, name, course, Split(name, ' '));
  }

  /**
   * The add form accepts a name with a run of inner whitespace, but typing its
   * words to `/curso` rebuilds the name with single spaces and misses it.
   */
  lemma LookupMissesWhitespaceRun(c: Catalog, course: Course)
    requires Valid(c) && "Calculo 1" !in c.values
    ensures IsCourseName("Calculo  1")
    ensures GetCourseLink(Put(c, "Calculo  1", course), ["Calculo", "1"]) == NotFound("Calculo 1")
  {
    assert Join(["Calculo", "1"], " ") == "Calculo 1";
    TrimOfTrimmed("Calculo 1");
    assert Get(Put(c, "Calculo  1", course), "Calculo 1") == Get(c, "Calculo 1");
  }

  // ----- Grouping by area (list_courses) -----

  /** The areas of the courses named by `ks`, in that order. */
  function AreasOf(ks: seq<string>, vals: map<string, Course>): seq<string>
    requires forall k :: k in ks ==> k in vals
  {
    seq(|ks|, i requires 0 <= i < |ks| => vals[ks[i]].area)
  }

  /** The names among `ks` whose course lies in area `a`, in the order of `ks`. */
  function Members(ks: seq<string>, vals: map<string, Course>, a: string): seq<string>
    requires forall k :: k in ks ==> k in vals
  {
    if ks == [] then []
    else
      var p := ks[..|ks| - 1];
      var k := ks[|ks| - 1];
      assert forall x :: x in p ==> x in ks;
      if vals[k].area == a then Members(p, vals, a) + [k] else Members(p, vals, a)
  }

  /**
   * The `grouped` dict of list_courses once the courses `ks` have been scanned:
   * its areas in the order of their first course, each holding its members.
   */
  predicate GroupedBy(grouped: Dict<seq<string>>, ks: seq<string>, vals: map<string, Course>)
    requires forall k :: k in ks ==> k in vals
  {
    && Valid(grouped)
    && grouped.keys == Dedup(AreasOf(ks, vals))
    && forall a :: a in grouped.values ==> grouped.values[a] == Members(ks, vals, a)
  }

  /** The names `grouped.setdefault(a, [])` yields: those already under `a`, or none. */
  function SetDefault(grouped: Dict<seq<string>>, a: string): seq<string>
  {
    if a in grouped.values then grouped.values[a] else []
  }

  /**
   * `grouped.setdefault(area, []).append(nome)` for the course `ks[i]` turns the
   * grouping of the courses before it into the grouping of those up to it.
   */
  lemma GroupStep(grouped: Dict<seq<string>>, ks: seq<string>, i: nat, vals: map<string, Course>)
    requires i < |ks|
    requires forall x :: x in ks ==> x in vals
    requires GroupedBy(grouped, ks[..i], vals)
    ensures GroupedBy(Put(grouped, vals[ks[i]].area, SetDefault(grouped, vals[ks[i]].area) + [ks[i]]), ks[..i + 1], vals)
  {
    var p, k := ks[..i], ks[i];
    assert ks[..i + 1] == p + [k];
    var area := vals[k].area;
    var after := Put(grouped, area, SetDefault(grouped, area) + [k]);
    assert after.keys == Dedup(AreasOf(p + [k], vals)) by {
      assert AreasOf(p + [k], vals) == AreasOf(p, vals) + [area];
      DedupAppend(AreasOf(p, vals), area);
    }
    forall a | a in after.values ensures after.values[a] == Members(p + [k], vals, a) {
      MembersAppend(p, k, vals, a);
      if a != area {
        assert Get(after, a) == Get(grouped, a);
      } else if area !in grouped.values {
        MembersOfAbsentArea(p, vals, area);
      }
    }
  }

  /** One area of the listing and the course names shown under it. */
  datatype Group = Group(area: string, names: seq<string>)

  /** The `grouped` dict of list_courses, in its iteration order. */
  function Grouped(c: Catalog): seq<Group>
    requires Valid(c)
  {
    var areas := Dedup(AreasOf(c.keys, c.values));
    seq(|areas|, i requires 0 <= i < |areas| => Group(areas[i], Members(c.keys, c.values, areas[i])))
  }

  function Items(names: seq<string>): seq<Line>
  {
    seq(|names|, i requires 0 <= i < |names| => Item(names[i]))
  }

  /** The area of each group, in listing order. */
  function AreasOfGroups(gs: seq<Group>): seq<string>
  {
    seq(|gs|, i requires 0 <= i < |gs| => gs[i].area)
  }

  /** The lines for the groups: each area heading followed by its course names. */
  function Render(gs: seq<Group>): seq<Line>
  {
    if gs == [] then []
    else
      var g := gs[|gs| - 1];
      Render(gs[..|gs| - 1]) + [AreaHeader(g.area)] + Items(g.names)
  }

  /** Rendering one more group appends its heading and its names. */
  lemma RenderSnoc(gs: seq<Group>, j: nat)
    requires j < |gs|
    ensures Render(gs[..j + 1]) == Render(gs[..j]) + [AreaHeader(gs[j].area)] + Items(gs[j].names)
  {
    assert gs[..j + 1][..j] == gs[..j];
  }

  /** What `list_courses` replies for the catalog `c`. */
  function ListingReply(c: Catalog): Reply
    requires Valid(c)
  {
    if |c.keys| == 0 then NoneRegistered
    else Listing([Title] + Render(Grouped(c)) + [Footer])
  }

  /** The listing of an empty catalog is the "none registered" reply, and only that listing is. */
  lemma ListingEmpty(c: Catalog)
    requires Valid(c)
    ensures ListingReply(c) == NoneRegistered <==> |c.values| == 0
  {
    if |c.values| != 0 {
      var k :| k in c.values;
      assert k in c.keys;
    }
  }

  /** The name `n` is among the members of `a` exactly when it is one of `ks` and its course lies in `a`. */
  lemma {:induction false} MembersElements(ks: seq<string>, vals: map<string, Course>, a: string, n: string)
    requires forall k :: k in ks ==> k in vals
    ensures n in Members(ks, vals, a) <==> n in ks && vals[n].area == a
  {
    if ks != [] {
      var p := ks[..|ks| - 1];
      assert ks == p + [ks[|ks| - 1]];
      MembersElements(p, vals, a, n);
    }
  }

  /** Scanning one more course adds it to the members of its own area only. */
  lemma MembersAppend(ks: seq<string>, k: string, vals: map<string, Course>, a: string)
    requires forall x :: x in ks + [k] ==> x in vals
    ensures forall x :: x in ks ==> x in vals
    ensures Members(ks + [k], vals, a) == if vals[k].area == a then Members(ks, vals, a) + [k] else Members(ks, vals, a)
  {
    assert forall x :: x in ks ==> x in ks + [k];
    assert (ks + [k])[..|ks|] == ks;
  }

  /** An area that none of `ks` lies in has no members. */
  lemma {:induction false} MembersOfAbsentArea(ks: seq<string>, vals: map<string, Course>, a: string)
    requires forall k :: k in ks ==> k in vals
    requires a !in AreasOf(ks, vals)
    ensures Members(ks, vals, a) == []
  {
    if ks != [] {
      var p := ks[..|ks| - 1];
      assert AreasOf(ks, vals) == AreasOf(p, vals) + [vals[ks[|ks| - 1]].area];
      MembersOfAbsentArea(p, vals, a);
    }
  }

  /** The members of an area keep the order of `ks`, so each name appears there at most once. */
  lemma {:induction false} MembersInOrder(ks: seq<string>, vals: map<string, Course>, a: string)
    requires forall k :: k in ks ==> k in vals
    requires Distinct(ks)
    ensures InOrderOf(Members(ks, vals, a), ks)
    ensures Distinct(Members(ks, vals, a))
  {
    var m := Members(ks, vals, a);
    forall i | 0 <= i < |m| ensures m[i] in ks {
      MembersElements(ks, vals, a, m[i]);
    }
    if ks != [] {
      var p := ks[..|ks| - 1];
      var k := ks[|ks| - 1];
      assert ks == p + [k];
      MembersInOrder(p, vals, a);
      var mp := Members(p, vals, a);
      forall i | 0 <= i < |mp| ensures mp[i] in p && IndexOf(ks, mp[i]) == IndexOf(p, mp[i]) {
        MembersElements(p, vals, a, mp[i]);
        IndexOfAppend(p, k, mp[i]);
      }
      if vals[k].area == a {
        assert m == mp + [k];
        assert k !in p;
        assert IndexOf(ks, k) == |p|;
      }
    }
  }

  /** Every course name of the catalog stands under its own area and under no other. */
  lemma NameUnderItsArea(c: Catalog, n: string)
    requires Valid(c)
    requires n in c.values
    ensures forall i :: 0 <= i < |Grouped(c)| ==> (n in Grouped(c)[i].names <==> Grouped(c)[i].area == c.values[n].area)
    ensures exists i :: 0 <= i < |Grouped(c)| && Grouped(c)[i].area == c.values[n].area
  {
    var gs := Grouped(c);
    var ars := AreasOf(c.keys, c.values);
    forall i | 0 <= i < |gs| ensures n in gs[i].names <==> gs[i].area == c.values[n].area {
      MembersElements(c.keys, c.values, gs[i].area, n);
    }
    var j := IndexOf(c.keys, n);
    assert ars[j] == c.values[n].area;
    assert ars[j] in Dedup(ars);
    var i := IndexOf(Dedup(ars), ars[j]);
    assert gs[i].area == c.values[n].area;
  }

  /** The areas of the listing are distinct and in the order of their first course in the catalog. */
  lemma ListingAreasInFirstSeenOrder(c: Catalog)
    requires Valid(c)
    ensures Distinct(AreasOfGroups(Grouped(c)))
    ensures InOrderOf(AreasOfGroups(Grouped(c)), AreasOf(c.keys, c.values))
  {
    var ars := AreasOf(c.keys, c.values);
    DedupFirstSeenOrder(ars);
    assert AreasOfGroups(Grouped(c)) == Dedup(ars);
  }

  /** Every area of the listing has a course, and the names under it are distinct and in catalog order. */
  lemma ListingNamesInCatalogOrder(c: Catalog)
    requires Valid(c)
    ensures forall i :: 0 <= i < |Grouped(c)| ==> Grouped(c)[i].names != []
    ensures forall i :: 0 <= i < |Grouped(c)| ==> Distinct(Grouped(c)[i].names)
    ensures forall i :: 0 <= i < |Grouped(c)| ==> InOrderOf(Grouped(c)[i].names, c.keys)
  {
    var gs := Grouped(c);
    var ars := AreasOf(c.keys, c.values);
    forall i | 0 <= i < |gs|
      ensures gs[i].names != []
      ensures Distinct(gs[i].names)
      ensures InOrderOf(gs[i].names, c.keys)
    {
      var a := gs[i].area;
      assert a in ars;
      var k := c.keys[IndexOf(ars, a)];
      MembersElements(c.keys, c.values, a, k);
      MembersInOrder(c.keys, c.values, a);
    }
  }

  // ----- Every course listed exactly once -----

  /** The course names of the groups of the areas `ars`, one group after the other. */
  function Flat(ks: seq<string>, vals: map<string, Course>, ars: seq<string>): seq<string>
    requires forall k :: k in ks ==> k in vals
  {
    if ars == [] then [] else Members(ks, vals, ars[0]) + Flat(ks, vals, ars[1..])
  }

  function AllNames(gs: seq<Group>): seq<string>
  {
    if gs == [] then [] else gs[0].names + AllNames(gs[1..])
  }

  lemma {:induction false} FlatOfNone(vals: map<string, Course>, ars: seq<string>)
    ensures Flat([], vals, ars) == []
  {
    if ars != [] {
      FlatOfNone(vals, ars[1..]);
    }
  }

  /** One more course adds its name once, to the group of its area, when that area is listed once. */
  lemma {:induction false} FlatStep(ks: seq<string>, k: string, vals: map<string, Course>, ars: seq<string>)
    requires forall x :: x in ks + [k] ==> x in vals
    requires Distinct(ars)
    ensures forall x :: x in ks ==> x in vals
    ensures multiset(Flat(ks + [k], vals, ars)) ==
      multiset(Flat(ks, vals, ars)) + (if vals[k].area in ars then multiset{k} else multiset{})
  {
    assert forall x :: x in ks ==> x in ks + [k];
    if ars != [] {
      assert Distinct(ars[1..]) by {
        forall i, j | 0 <= i < j < |ars[1..]| ensures ars[1..][i] != ars[1..][j] {
          assert ars[1..][i] == ars[i + 1] && ars[1..][j] == ars[j + 1];
        }
      }
      FlatStep(ks, k, vals, ars[1..]);
      var ks' := ks + [k];
      assert ks'[..|ks'| - 1] == ks;
      if vals[k].area == ars[0] {
        assert vals[k].area !in ars[1..];
      }
    }
  }

  /** Over distinct areas that cover every course, each name of `ks` is listed exactly as often as it occurs. */
  lemma {:induction false} FlatPermutation(ks: seq<string>, vals: map<string, Course>, ars: seq<string>)
    requires forall k :: k in ks ==> k in vals
    requires Distinct(ars)
    requires forall k :: k in ks ==> vals[k].area in ars
    ensures multiset(Flat(ks, vals, ars)) == multiset(ks)
  {
    if ks == [] {
      FlatOfNone(vals, ars);
    } else {
      var p := ks[..|ks| - 1];
      var k := ks[|ks| - 1];
      assert ks == p + [k];
      assert forall x :: x in p ==> x in ks;
      FlatPermutation(p, vals, ars);
      FlatStep(p, k, vals, ars);
    }
  }

  lemma {:induction false} AllNamesOfGroups(ks: seq<string>, vals: map<string, Course>, ars: seq<string>)
    requires forall k :: k in ks ==> k in vals
    ensures AllNames(seq(|ars|, i requires 0 <= i < |ars| => Group(ars[i], Members(ks, vals, ars[i])))) == Flat(ks, vals, ars)
  {
    var gs := seq(|ars|, i requires 0 <= i < |ars| => Group(ars[i], Members(ks, vals, ars[i])));
    if ars != [] {
      AllNamesOfGroups(ks, vals, ars[1..]);
      assert gs[1..] == seq(|ars[1..]|, i requires 0 <= i < |ars[1..]| => Group(ars[1..][i], Members(ks, vals, ars[1..][i])));
    }
  }

  /** The names listed across all areas are the catalog's names, each exactly once. */
  lemma ListingIsPermutation(c: Catalog)
    requires Valid(c)
    ensures multiset(AllNames(Grouped(c))) == multiset(c.keys)
    ensures forall n :: n in c.keys ==> multiset(AllNames(Grouped(c)))[n] == 1
  {
    var ars := AreasOf(c.keys, c.values);
    var d := Dedup(ars);
    AllNamesOfGroups(c.keys, c.values, d);
    forall k | k in c.keys ensures c.values[k].area in d {
      assert ars[IndexOf(c.keys, k)] == c.values[k].area;
    }
    FlatPermutation(c.keys, c.values, d);
    forall n | n in c.keys ensures multiset(c.keys)[n] == 1 {
      DistinctCount(c.keys, n);
    }
  }

  // ----- The lines of the listing reply -----

  /** The course names of the `Item` lines, in order. */
  function ItemNames(lines: seq<Line>): seq<string>
  {
    if lines == [] then [] else (if lines[0].Item? then [lines[0].name] else []) + ItemNames(lines[1..])
  }

  lemma {:induction false} ItemNamesAppend(a: seq<Line>, b: seq<Line>)
    ensures ItemNames(a + b) == ItemNames(a) + ItemNames(b)
  {
    if a == [] {
      assert a + b == b;
    } else {
      assert (a + b)[0] == a[0] && (a + b)[1..] == a[1..] + b;
      ItemNamesAppend(a[1..], b);
    }
  }

  lemma {:induction false} ItemNamesOfItems(names: seq<string>)
    ensures ItemNames(Items(names)) == names
  {
    if names != [] {
      assert Items(names)[1..] == Items(names[1..]);
      ItemNamesOfItems(names[1..]);
    }
  }

  lemma {:induction false} AllNamesSnoc(gs: seq<Group>, g: Group)
    ensures AllNames(gs + [g]) == AllNames(gs) + g.names
  {
    if gs != [] {
      assert (gs + [g])[1..] == gs[1..] + [g];
      AllNamesSnoc(gs[1..], g);
    }
  }

  /** The `Item` lines of the rendered groups name the groups' courses, group after group. */
  lemma {:induction false} ItemNamesOfRender(gs: seq<Group>)
    ensures ItemNames(Render(gs)) == AllNames(gs)
  {
    if gs != [] {
      var p, g := gs[..|gs| - 1], gs[|gs| - 1];
      assert gs == p + [g];
      ItemNamesOfRender(p);
      ItemNamesAppend(Render(p) + [AreaHeader(g.area)], Items(g.names));
      ItemNamesAppend(Render(p), [AreaHeader(g.area)]);
      ItemNamesOfItems(g.names);
      AllNamesSnoc(p, g);
    }
  }

  /** The course lines of the reply `list_courses` sends name every course of the catalog exactly once. */
  lemma ListingListsEachCourseOnce(c: Catalog)
    requires Valid(c)
    ensures ListingReply(c).Listing? <==> |c.keys| > 0
    ensures ListingReply(c).Listing? ==> multiset(ItemNames(ListingReply(c).lines)) == multiset(c.keys)
  {
    if |c.keys| > 0 {
      var body := Render(Grouped(c));
      ItemNamesAppend([Title] + body, [Footer]);
      ItemNamesAppend([Title], body);
      ItemNamesOfRender(Grouped(c));
      ListingIsPermutation(c);
    }
  }

  lemma {:induction false} DistinctCount(s: seq<string>, x: string)
    requires Distinct(s) && x in s
    ensures multiset(s)[x] == 1
  {
    var i := IndexOf(s, x);
    assert s == s[..i] + [x] + s[i + 1..];
    assert x !in s[..i];
    var t := s[i + 1..];
    assert x !in t by {
      forall j | 0 <= j < |t| ensures t[j] != x {
        assert t[j] == s[i + 1 + j];
      }
    }
  }
}
