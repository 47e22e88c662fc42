/**
 * bot.py: a catalog `cursos` from course name to link, filled by
 * `/adicionar_curso <nome> <link...>` and shown by `/listar_cursos`.
 */
module LinkBot {
  import opened Seqs
  import opened Text
  import opened OrderedDict

  /** What the two handlers reply, with the data the reply text shows. */
  datatype Reply =
    | Added(nome: string)          // the course was stored
    | Usage                        // fewer than two arguments
    | Available(lines: seq<string>)  // the listing's lines, one per course
    | NoneAvailable                // listing of an empty catalog

  /** The listing line of one course: `f"{nome}: {link}"`. */
  function Line(nome: string, link: string): string
  {
    nome + ": " + link
  }

  /** The lines of the listing, one per course in insertion order. */
  function Lines(cursos: Dict<string>): seq<string>
    requires Valid(cursos)
  {
    seq(|cursos.keys|, i requires 0 <= i < |cursos.keys| => Line(cursos.keys[i], cursos.values[cursos.keys[i]]))
  }

  /**
   * `listar_cursos`: "none available" for an empty catalog; otherwise one line
   * per course, in insertion order, showing that course's name and link.
   */
  function ListarCursos(cursos: Dict<string>): (r: Reply)
    requires Valid(cursos)
    ensures r.NoneAvailable? || r.Available?
    ensures r.NoneAvailable? <==> |cursos.keys| == 0
    ensures r.Available? ==> |r.lines| == |cursos.keys|
    ensures r.Available? ==> forall i :: 0 <= i < |cursos.keys| ==>
      r.lines[i] == Line(cursos.keys[i], cursos.values[cursos.keys[i]])
  {
    if |cursos.keys| != 0 then Available(Lines(cursos)) else NoneAvailable
  }

  /** Adding a new course adds its line after all the others. */
  lemma ListingAfterNewCourse(cursos: Dict<string>, nome: string, link: string)
    requires Valid(cursos)
    requires nome !in cursos.values
    ensures Lines(Put(cursos, nome, link)) == Lines(cursos) + [Line(nome, link)]
  {
    var after := Put(cursos, nome, link);
    forall i | 0 <= i < |cursos.keys| ensures Lines(after)[i] == Lines(cursos)[i] {
      assert after.keys[i] == cursos.keys[i];
      assert Get(after, cursos.keys[i]) == Get(cursos, cursos.keys[i]);
    }
  }

  /** Adding an existing name replaces its line in place: same number of lines, the others unchanged. */
  lemma ListingAfterOverwrite(cursos: Dict<string>, nome: string, link: string)
    requires Valid(cursos)
    requires nome in cursos.values
    ensures |Lines(Put(cursos, nome, link))| == |Lines(cursos)|
    ensures Lines(Put(cursos, nome, link))[IndexOf(cursos.keys, nome)] == Line(nome, link)
    ensures forall i :: 0 <= i < |cursos.keys| && cursos.keys[i] != nome ==>
      Lines(Put(cursos, nome, link))[i] == Lines(cursos)[i]
  {
    var after := Put(cursos, nome, link);
    assert after.keys == cursos.keys;
    forall i | 0 <= i < |cursos.keys| && cursos.keys[i] != nome ensures Lines(after)[i] == Lines(cursos)[i] {
      assert Get(after, cursos.keys[i]) == Get(cursos, cursos.keys[i]);
    }
  }

  /** The link `adicionar_curso` stores gives back the arguments after the name when split on spaces. */
  lemma StoredLinkKeepsArguments(args: seq<string>)
    requires |args| >= 2
    requires forall i :: 1 <= i < |args| ==> ' ' !in args[i]
    ensures Split(Join(args[1..], " "), ' ') == args[1..]
  {
    SplitJoin(args[1..], ' ');
  }

  class Bot {
    var cursos: Dict<string>    // the module-level `cursos` dict

    ghost predicate Valid()
      reads this
    {
      OrderedDict.Valid(cursos)
    }

    /** `cursos = {}` at import. */
    constructor ()
      ensures Valid() && cursos == Empty()
    {
      cursos := Empty();
    }

    /**
     * `adicionar_curso`: with two or more arguments the first is the name and the
     * rest joined by single spaces the link, stored over any earlier entry of that
     * name; with fewer, the usage reply and nothing changes.
     */
    method AdicionarCurso(args: seq<string>) returns (r: Reply)
      requires Valid()
      modifies this
      ensures Valid()
      ensures |args| < 2 ==> r == Usage && cursos == old(cursos)
      ensures |args| >= 2 ==>
        && r == Added(args[0])
        && cursos == Put(old(cursos), args[0], Join(args[1..], " "))
        && Get(cursos, args[0]) == Some(Join(args[1..], " "))
        && (forall k :: k != args[0] ==> Get(cursos, k) == Get(old(cursos), k))
        && |cursos.keys| == |old(cursos.keys)| + (if args[0] in old(cursos.values) then 0 else 1)
    {
      if |args| >= 2 {
        var nome := args[0];
        var link := Join(args[1..], " ");
        cursos := Put(cursos, nome, link);
        r := Added(nome);
      } else {
        r := Usage;
      }
    }
  }
}
