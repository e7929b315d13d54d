/** How the configuration upgrader reads one line of a header. */
module MacroLines {

  const DEFINE := "#define"
  const BACKSLASH := '\\'

  /** The pieces of a line between single spaces. */
  function Split(s: string): (words: seq<string>)
    ensures |words| > 0
  {
    if s == "" then [""]
    else
      var rest := Split(s[1..]);
      if s[0] == ' ' then [""] + rest else [[s[0]] + rest[0]] + rest[1..]
  }

  function Join(words: seq<string>): string
  {
    if words == [] then ""
    else if |words| == 1 then words[0]
    else words[0] + " " + Join(words[1..])
  }

  predicate Spaceless(s: string)
  {
    forall k :: 0 <= k < |s| ==> s[k] != ' '
  }

  lemma {:induction false} JoinSplit(s: string)
    ensures Join(Split(s)) == s
  {
    if s == "" {
    } else {
      JoinSplit(s[1..]);
      var rest := Split(s[1..]);
      assert s == [s[0]] + s[1..];
      if s[0] == ' ' {
        assert ([""] + rest)[1..] == rest;
      } else {
        JoinLonger(s[0], rest);
      }
    }
  }

  /** A character before the first word. */
  lemma {:induction false} JoinLonger(c: char, rest: seq<string>)
    requires rest != []
    ensures Join([[c] + rest[0]] + rest[1..]) == [c] + Join(rest)
  {
    var words := [[c] + rest[0]] + rest[1..];
    assert words[0] == [c] + rest[0] && words[1..] == rest[1..];
    if |rest| > 1 {
      Appended([c], rest[0], " " + Join(rest[1..]));
    }
  }

  lemma Appended(a: string, b: string, c: string)
    ensures (a + b) + c == a + (b + c)
  {
  }

  lemma {:induction false} WordsSpaceless(s: string)
    ensures forall i :: 0 <= i < |Split(s)| ==> Spaceless(Split(s)[i])
  {
    if s == "" {
    } else {
      WordsSpaceless(s[1..]);
    }
  }

  /** A word put before a line becomes its first word. */
  lemma {:induction false} SplitAfterWord(w: string, s: string)
    requires Spaceless(w)
    ensures Split(w + " " + s) == [w] + Split(s)
  {
    var l := w + " " + s;
    if w == "" {
      assert l[1..] == s;
    } else {
      assert l[1..] == w[1..] + " " + s;
      SplitAfterWord(w[1..], s);
      assert [w[0]] + w[1..] == w;
      assert ([w[1..]] + Split(s))[1..] == Split(s);
    }
  }

  /** White space as Python strips it. */
  predicate White(c: char)
  {
    var n := c as int;
    || 9 <= n <= 13 || 28 <= n <= 32 || n == 0x85 || n == 0xA0 || n == 0x1680 || 0x2000 <= n <= 0x200A
    || n == 0x2028 || n == 0x2029 || n == 0x202F || n == 0x205F || n == 0x3000
  }

  /** The last character that is not white space is a backslash. */
  predicate Continues(l: string)
  {
    l != "" && if White(l[|l|-1]) then Continues(l[..|l|-1]) else l[|l|-1] == BACKSLASH
  }

  /** The line defines a macro with a value. */
  predicate Defines(l: string)
  {
    DEFINE <= l && |Split(l)| > 2
  }

  function Name(l: string): string
    requires Defines(l)
  {
    Split(l)[1]
  }

  function Value(l: string): string
    requires Defines(l)
  {
    Join(Split(l)[2..])
  }

  function Spaces(s: string): nat
  {
    if s == "" then 0 else Spaces(s[1..]) + if s[0] == ' ' then 1 else 0
  }

  /** A line has one piece more than it has spaces. */
  lemma {:induction false} SplitCount(s: string)
    ensures |Split(s)| == Spaces(s) + 1
  {
    if s != "" {
      SplitCount(s[1..]);
    }
  }

  /** A line defines a macro with a value exactly if it starts with #define and has two spaces. */
  lemma DefinesExactly(l: string)
    ensures Defines(l) <==> "#define" <= l && Spaces(l) >= 2
  {
    SplitCount(l);
  }

  /** A line is continued exactly if nothing but white space follows some backslash. */
  lemma {:induction false} ContinuesExactly(l: string)
    ensures Continues(l) <==> exists k :: 0 <= k < |l| && l[k] == '\\' && WhiteAfter(l, k)
    decreases |l|
  {
    if l != "" {
      var n := |l| - 1;
      ContinuesExactly(l[..n]);
      if White(l[n]) {
        forall k | 0 <= k < n ensures WhiteAfter(l, k) <==> WhiteAfter(l[..n], k) {
          assert forall j :: k < j < n ==> l[..n][j] == l[j];
        }
      } else {
        assert l[n] == '\\' ==> WhiteAfter(l, n);
      }
    }
  }

  predicate WhiteAfter(l: string, k: nat)
    requires k < |l|
  {
    forall j :: k < j < |l| ==> White(l[j])
  }

  /** The text of a definition before any newline is added. */
  function Definition(name: string, value: string): string
  {
    DEFINE + " " + name + " " + value
  }

  predicate Newlined(l: string)
  {
    l != "" && l[|l|-1] == '\n'
  }

  /** The line, with a newline if it had none. */
  function Terminated(l: string): (t: string)
    ensures Newlined(t) && (t == l <==> Newlined(l))
  {
    if Newlined(l) then l else l + "\n"
  }

  lemma SplitDefinition(name: string, value: string)
    requires Spaceless(name)
    ensures Split(Definition(name, value)) == [DEFINE] + ([name] + Split(value))
  {
    var tail := name + " " + value;
    assert Definition(name, value) == DEFINE + " " + tail;
    SplitAfterWord(DEFINE, tail);
    SplitAfterWord(name, value);
  }

  /** Reading back a written definition gives its name and value. */
  lemma {:induction false} DefinitionReadsBack(name: string, value: string)
    requires Spaceless(name)
    ensures var l := Definition(name, value);
      Defines(l) && Split(l)[0] == DEFINE && Name(l) == name && Value(l) == value
  {
    var l, words := Definition(name, value), Split(value);
    SplitDefinition(name, value);
    assert ([DEFINE] + ([name] + words))[2..] == words;
    JoinSplit(value);
    assert l[..|DEFINE|] == DEFINE;
  }

  /** A defining line is the definition of what is read from it exactly if its first word is
      #define alone. */
  lemma ReadsAsDefinition(l: string)
    requires Defines(l)
    ensures Spaceless(Name(l))
    ensures Definition(Name(l), Value(l)) == l <==> Split(l)[0] == DEFINE
  {
    WordsSpaceless(l);
    DefinitionReadsBack(Name(l), Value(l));
    JoinSplit(l);
    var w := Split(l);
    assert l == w[0] + " " + Join(w[1..]);
    assert Join(w[1..]) == w[1] + " " + Join(w[2..]) by {
      assert w[1..][0] == w[1] && w[1..][1..] == w[2..];
    }
    if w[0] == DEFINE {
      assert l == DEFINE + " " + (w[1] + " " + Join(w[2..]));
      assert DEFINE + " " + (w[1] + " " + Join(w[2..])) == DEFINE + " " + w[1] + " " + Join(w[2..]);
    }
  }

  lemma TerminatedDefinition(name: string, value: string)
    ensures Terminated(Definition(name, value)) == Definition(name, Terminated(value))
  {
    var l := Definition(name, value);
    if value == "" {
      assert l[|l|-1] == ' ';
    } else {
      assert l[|l|-1] == value[|value|-1];
    }
    assert l + "\n" == Definition(name, value + "\n");
  }

  lemma {:induction false} SplitNewline(l: string)
    ensures |Split(l + "\n")| == |Split(l)|
  {
    if l == "" {
      assert (l + "\n")[1..] == "";
    } else {
      assert (l + "\n")[1..] == l[1..] + "\n";
      SplitNewline(l[1..]);
    }
  }

  /** Ending a line in a newline does not make it a definition. */
  lemma TerminatedDefines(l: string)
    ensures Defines(Terminated(l)) == Defines(l)
  {
    SplitNewline(l);
    var t := l + "\n";
    if DEFINE <= t {
      assert t[6] == DEFINE[6] == 'e' && t[|l|] == '\n';
      assert DEFINE == t[..|DEFINE|] == l[..|DEFINE|];
    }
  }
}
