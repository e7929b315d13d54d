/** Headers on which the upgrader tears a value apart. */
module GrownValue {
  import opened MacroLines
  import opened UpgradeSpec
  import opened BlockEdits
  import opened HeaderReading
  import opened Prelude
  import opened UpgradeProperties

  const ONE_LINE := ["#define A 1\n", "#define B 2\n"]
  const LONG_VALUE := "1\\\n"
  const TWO_LINES := ["#define A " + LONG_VALUE, "3\n"]

  const HIDDEN := [TWO_LINES[0], ONE_LINE[1]]

  lemma TwoDefinitions(l: string, m: string)
    requires Defines(l) && Defines(m) && !Continues(l) && !Continues(m) && Name(l) != Name(m)
    ensures Values([l, m]) == [Entry(Name(l), Value(l), [], 0, 0), Entry(Name(m), Value(m), [], 1, 0)]
  {
    var e := Entry(Name(l), Value(l), [], 0, 0);
    ReadsLine([], Scan([], None), l);
    ReadsLine([l], Scan([e], None), m);
    assert [] + [l] == [l] && [l] + [m] == [l, m];
    assert IndexOf([e], Name(m)) == 1;
  }

  lemma OneDefinitionOfTwo(l: string, m: string)
    requires Defines(l) && Continues(l) && !Continues(m)
    ensures Values([l, m]) == [Entry(Name(l), Value(l), [m], 0, 0)]
  {
    var e := Entry(Name(l), Value(l), [], 0, 0);
    ReadsLine([], Scan([], None), l);
    ReadsLine([l], Scan([e], Some(Name(l))), m);
    assert [] + [l] == [l] && [l] + [m] == [l, m];
    assert IndexOf([e], Name(l)) == 0 && [] + [m] == [m];
    assert AppendLine([e], Name(l), m) == [Entry(Name(l), Value(l), [m], 0, 0)];
  }

  lemma Spelled()
    ensures ONE_LINE == [ONE_LINE[0], ONE_LINE[1]] && TWO_LINES == [TWO_LINES[0], TWO_LINES[1]]
    ensures ONE_LINE[0] == Definition("A", "1\n")
    ensures ONE_LINE[1] == Definition("B", "2\n")
    ensures TWO_LINES[0] == Definition("A", LONG_VALUE)
  {
  }

  lemma EndsSpelled()
    ensures !Continues(ONE_LINE[0]) && !Continues(ONE_LINE[1]) && Continues(TWO_LINES[0]) && !Continues(TWO_LINES[1])
  {
    EndsIn(ONE_LINE[0], '1');
    EndsIn(ONE_LINE[1], '2');
    EndsIn(TWO_LINES[0], BACKSLASH);
    EndsIn(TWO_LINES[1], '3');
  }

  lemma EndsIn(l: string, c: char)
    requires |l| >= 2 && l[|l|-1] == '\n' && l[|l|-2] == c && !White(c)
    ensures Continues(l) <==> c == BACKSLASH
  {
    assert l[..|l|-1][|l|-2] == c;
  }

  /** The line defines name, with #define a word of its own, and ends in a newline. */
  ghost predicate Heads(l: string, name: string)
  {
    Defines(l) && Name(l) == name && Split(l)[0] == DEFINE && Newlined(l)
  }

  lemma DefinitionHeads(l: string, name: string, value: string)
    requires l == Definition(name, value) && Spaceless(name) && Newlined(l)
    ensures Heads(l, name)
  {
    DefinitionReadsBack(name, value);
  }

  lemma SpelledHeads()
    ensures Heads(ONE_LINE[0], "A") && Heads(ONE_LINE[1], "B") && Heads(TWO_LINES[0], "A")
  {
    FirstHeads();
    OtherHeads();
  }

  lemma FirstHeads()
    ensures Heads(ONE_LINE[0], "A")
  {
    Spelled();
    SpelledHead(ONE_LINE[0], "A", "1\n");
  }

  lemma OtherHeads()
    ensures Heads(ONE_LINE[1], "B") && Heads(TWO_LINES[0], "A")
  {
    Spelled();
    SpelledHead(ONE_LINE[1], "B", "2\n");
    SpelledHead(TWO_LINES[0], "A", LONG_VALUE);
  }

  lemma SpelledHead(l: string, name: string, value: string)
    requires l == Definition(name, value) && |name| == 1 && name[0] != ' ' && value != "" && value[|value|-1] == '\n'
    ensures Heads(l, name)
  {
    DefinitionHeads(l, name, value);
  }

  /** A user's two-line value for a template's one-line name is torn apart by the next
      definition, which is still inserted at its old place. */
  lemma LongerValueIsTorn()
    ensures Upgraded(TWO_LINES, ONE_LINE) == Some([TWO_LINES[0], ONE_LINE[1], TWO_LINES[1]])
  {
    EndsSpelled();
    SpelledHeads();
    Torn(ONE_LINE, TWO_LINES, "A", "B");
  }

  /** A longer value whose second line is itself the template's next definition hides the tear:
      the two lines that change places are equal, and the upgrade gives what is intended. */
  lemma EqualLinesHideTheTear()
    ensures DistinctNames(ONE_LINE) && !SizesAllow(Values(HIDDEN), Values(ONE_LINE))
    ensures !PlainValues(Values(HIDDEN), Values(ONE_LINE))
    ensures Upgraded(HIDDEN, ONE_LINE) == Some(Intended(HIDDEN, ONE_LINE))
  {
    EndsSpelled();
    SpelledHeads();
    HiddenTear(ONE_LINE, HIDDEN, "A", "B");
  }

  lemma HiddenTear(template: seq<string>, user: seq<string>, name: string, next: string)
    requires |template| == |user| == 2 && name != next && user[1] == template[1]
    requires Heads(template[0], name) && Heads(template[1], next) && Heads(user[0], name)
    requires !Continues(template[0]) && !Continues(template[1]) && Continues(user[0])
    ensures DistinctNames(template) && !SizesAllow(Values(user), Values(template))
    ensures !PlainValues(Values(user), Values(template))
    ensures Upgraded(user, template) == Some(Intended(user, template))
  {
    var l, m, long := template[0], template[1], user[0];
    assert template == [l, m] && user == [long, m];
    Torn(template, user, name, next);
    TwoDefinitions(l, m);
    OneDefinitionOfTwo(long, m);
    var a, b := Entry(Name(l), Value(l), [], 0, 0), Entry(Name(m), Value(m), [], 1, 0);
    var grown := Entry(Name(long), Value(long), [m], 0, 0);
    MergedFirst(grown, a, b);
    WantedFirst(grown, a, b);
    assert DistinctNames(template);
    ValuesCover(template);
    TwoSpliced(template, a, b, grown, b);
    DefinitionLine(long);
    DefinitionLine(m);
    TwoBlocks(grown, b);
  }

  lemma WantedFirst(grown: Entry, a: Entry, b: Entry)
    requires grown.name == a.name && |grown.more| == 1 && Defines(grown.more[0]) && a.more == []
    ensures !SizesAllow([grown], [a, b]) && !PlainValues([grown], [a, b])
  {
    assert IndexOf([grown], a.name) == 0;
    assert Wanted([grown], [a, b][0]).Size() != [a, b][0].Size();
    assert !Plain(Wanted([grown], [a, b][0]).more);
  }

  lemma TwoBlocks(a: Entry, b: Entry)
    requires a.Size() == 2 && b.Size() == 1
    ensures Block(a) + Block(b) == [BlockLine(a, 0), BlockLine(a, 1), BlockLine(b, 0)]
  {
  }

  lemma {:induction false} OneSpliced(l: string, a: Entry, a': Entry)
    requires Laid([a], 1) && a.pos == 0 && a.Size() == 1
    ensures Spliced([l], [a], [a']) == Block(a')
  {
    assert [a][..0] == [] && [a'][..0] == [] && [l][..0] == [] && [l][1..] == [];
    assert Spliced([], [], []) == [];
    assert Spliced([l], [a], [a']) == [] + Block(a') + [];
  }

  lemma {:induction false} TwoSpliced(lines: seq<string>, a: Entry, b: Entry, a': Entry, b': Entry)
    requires |lines| == 2 && Laid([a, b], 2)
    requires a.pos == 0 && b.pos == 1 && a.Size() == b.Size() == 1
    ensures Spliced(lines, [a, b], [a', b']) == Block(a') + Block(b')
  {
    assert [a, b][..1] == [a] && [a', b'][..1] == [a'];
    assert lines[..1] == [lines[0]] && lines[2..] == [];
    OneSpliced(lines[0], a, a');
  }

  lemma Torn(template: seq<string>, user: seq<string>, name: string, next: string)
    requires |template| == |user| == 2 && name != next
    requires Heads(template[0], name) && Heads(template[1], next) && Heads(user[0], name) && Newlined(user[1])
    requires !Continues(template[0]) && !Continues(template[1]) && Continues(user[0]) && !Continues(user[1])
    ensures Upgraded(user, template) == Some([user[0], template[1], user[1]])
  {
    var l, m, long, more := template[0], template[1], user[0], user[1];
    assert template == [l, m] && user == [long, more];
    TwoDefinitions(l, m);
    OneDefinitionOfTwo(long, more);
    var a, b := Entry(Name(l), Value(l), [], 0, 0), Entry(Name(m), Value(m), [], 1, 0);
    var grown := Entry(Name(long), Value(long), [more], 0, 0);
    MergedFirst(grown, a, b);
    DefinitionLine(long);
    DefinitionLine(m);
    TornEdits(l, m, a, b, grown);
  }

  lemma MergedFirst(grown: Entry, a: Entry, b: Entry)
    requires grown.name == a.name && grown.pos == a.pos && grown.offset == 0
    ensures Merged([grown], [a, b]) == [grown, b]
  {
    assert SetTo([grown], [a, b], 0) == ([a, b], 0) && IndexOf([a, b], grown.name) == 0;
  }

  lemma TornEdits(l: string, m: string, a: Entry, b: Entry, grown: Entry)
    requires a.pos == grown.pos == 0 && b.pos == 1 && a.Size() == b.Size() == 1 && grown.Size() == 2
    ensures InsertAll(DeleteAll([l, m], [a, b]), [grown, b]) ==
            Some([BlockLine(grown, 0), BlockLine(b, 0), BlockLine(grown, 1)])
  {
    DeleteTwo(l, m, a, b);
    InsertTwo(grown, b);
    TornBlocks(grown, b);
  }

  lemma TornBlocks(a: Entry, b: Entry)
    requires a.Size() == 2 && b.Size() == 1
    ensures Block(a)[..1] + Block(b) + Block(a)[1..] == [BlockLine(a, 0), BlockLine(b, 0), BlockLine(a, 1)]
  {
  }

  lemma DeleteTwo(l: string, m: string, a: Entry, b: Entry)
    requires a.pos == 0 && b.pos == 1 && a.Size() == b.Size() == 1
    ensures DeleteAll([l, m], [a, b]) == []
  {
    assert [a, b][..1] == [a] && [a][..0] == [];
    assert Delete([l, m], 1, 1) == [l] && Delete([l], 0, 1) == [];
    assert DeleteAll([l], [a]) == DeleteAll([], []);
  }

  lemma InsertTwo(a: Entry, b: Entry)
    requires a.pos == 0 && b.pos == 1
    ensures InsertAll([], [a, b]) == Some(Block(a)[..1] + Block(b) + Block(a)[1..])
  {
    assert [a, b][..1] == [a] && [a][..0] == [];
    assert InsertAll([], []) == Some([]);
    assert Inserted([], a) == Block(a);
    assert InsertAll([], [a]) == Some(Block(a));
  }
}
