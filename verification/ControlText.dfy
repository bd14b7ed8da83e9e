// The text of control-channel messages: Python's whitespace splitting on the
// server side, "%a"-formatted commands and prefix tests on the client side.
module ControlText {
  import opened Bytes

  // str.split() and str.strip() on decoded ASCII.
  predicate IsSpace(c: char) {
    c == ' ' || '\t' <= c <= '\r' || 28 as char <= c <= 31 as char
  }

  // Python's ASCII white space, by code point.
  lemma SpaceIs(c: char)
    ensures IsSpace(c) <==> c as int in {9, 10, 11, 12, 13, 28, 29, 30, 31, 32}
  {
  }

  ghost predicate IsWord(w: string) {
    w != [] && forall i :: 0 <= i < |w| ==> !IsSpace(w[i])
  }

  function SkipSpace(s: string): (r: string)
    ensures |r| <= |s|
    ensures r != [] ==> !IsSpace(r[0])
  {
    if s != [] && IsSpace(s[0]) then SkipSpace(s[1..]) else s
  }

  function TakeWord(s: string): (w: string)
    ensures w <= s
    ensures s != [] && !IsSpace(s[0]) ==> w != []
  {
    if s == [] || IsSpace(s[0]) then [] else [s[0]] + TakeWord(s[1..])
  }

  // The whitespace-separated words of a message.
  function Words(s: string): seq<string>
    decreases |s|
  {
    var r := SkipSpace(s);
    if r == [] then [] else
      var w := TakeWord(r);
      [w] + Words(r[|w|..])
  }

  function Upper(s: string): string {
    if s == [] then [] else [if 'a' <= s[0] <= 'z' then s[0] - 32 as char else s[0]] + Upper(s[1..])
  }

  // parts[0].upper(), or "" for a blank message.
  function Command(s: string): string {
    var parts := Words(s);
    if parts == [] then "" else Upper(parts[0])
  }

  datatype Verb = Hello | Prepare | Start | Stop | Result | GetReport | Done | Other

  // The dispatch on the command word.
  function VerbNamed(c: string): Verb {
    if c == "HELLO" then Hello
    else if c == "PREPARE" then Prepare
    else if c == "START" then Start
    else if c == "STOP" then Stop
    else if c == "RESULT" then Result
    else if c == "GETREPORT" then GetReport
    else if c == "DONE" then Done
    else Other
  }

  function VerbOf(msg: string): Verb {
    VerbNamed(Command(msg))
  }

  function Join(ws: seq<string>): string {
    if ws == [] then "" else if |ws| == 1 then ws[0] else ws[0] + " " + Join(ws[1..])
  }

  lemma {:induction false} TakeWordOf(w: string, rest: string)
    requires forall i :: 0 <= i < |w| ==> !IsSpace(w[i])
    requires rest == [] || IsSpace(rest[0])
    ensures TakeWord(w + rest) == w
  {
    if w == [] {
      assert w + rest == rest;
    } else {
      assert (w + rest)[1..] == w[1..] + rest;
      TakeWordOf(w[1..], rest);
    }
  }

  lemma WordsOf(w: string, rest: string)
    requires IsWord(w)
    requires rest == [] || IsSpace(rest[0])
    ensures Words(w + rest) == [w] + Words(rest)
  {
    TakeWordOf(w, rest);
    assert SkipSpace(w + rest) == w + rest;
    assert (w + rest)[|w|..] == rest;
  }

  lemma WordsAfterSpace(c: char, s: string)
    requires IsSpace(c)
    ensures Words([c] + s) == Words(s)
  {
    assert ([c] + s)[1..] == s;
  }

  // ---------------------------------------------------------------------
  // Commands of the client
  // ---------------------------------------------------------------------

  const MAX_MSG_SIZE := 512

  // AsciiSPrint into a buffer of that size leaves room for the NUL.
  function Printed(s: string): string {
    if |s| < MAX_MSG_SIZE then s else s[..MAX_MSG_SIZE - 1]
  }

  const HELLO_TEXT := "HELLO DDTSoft 1.0\n"
  const START_TEXT := "START\n"
  const STOP_TEXT := "STOP\n"
  const RESULT_TEXT := "RESULT\n"
  const DONE_TEXT := "DONE\n"

  // A NULL or empty `args` is left out.
  function PrepareText(layer: string, test: string, args: string): string {
    Printed(if args != [] then "PREPARE " + layer + " " + test + " " + args + "\n"
            else "PREPARE " + layer + " " + test + "\n")
  }

  lemma {:induction false} UpperKeeps(s: string)
    requires forall i :: 0 <= i < |s| ==> 'A' <= s[i] <= 'Z'
    ensures Upper(s) == s
  {
    if s != [] {
      UpperKeeps(s[1..]);
    }
  }

  // Only the 26 lower-case letters change, each to its capital.
  lemma {:induction false} UpperAt(s: string, i: nat)
    requires i < |s|
    ensures |Upper(s)| == |s|
    ensures Upper(s)[i] == if 'a' <= s[i] <= 'z' then "ABCDEFGHIJKLMNOPQRSTUVWXYZ"[s[i] as int - 97] else s[i]
  {
    if i > 0 {
      UpperAt(s[1..], i - 1);
    } else if |s| > 1 {
      UpperAt(s[1..], 0);
    }
  }

  lemma CommandOf(w: string, rest: string)
    requires w != [] && forall i :: 0 <= i < |w| ==> 'A' <= w[i] <= 'Z'
    requires rest == [] || IsSpace(rest[0])
    ensures Command(w + rest) == w
  {
    WordsOf(w, rest);
    UpperKeeps(w);
  }

  ghost predicate Begins(t: string, w: string) {
    |t| > |w| && t[..|w|] == w && IsSpace(t[|w|])
  }

  lemma VerbIs(t: string, w: string, verb: Verb)
    requires w != [] && forall i :: 0 <= i < |w| ==> 'A' <= w[i] <= 'Z'
    requires Begins(t, w) && VerbNamed(w) == verb
    ensures VerbOf(t) == verb
  {
    CommandOf(w, t[|w|..]);
    assert t == w + t[|w|..];
  }

  lemma HelloIs(t: string)
    requires t == HELLO_TEXT
    ensures VerbOf(t) == Hello
  {
    VerbIs(t, "HELLO", Hello);
  }

  lemma StartIs(t: string)
    requires t == START_TEXT
    ensures VerbOf(t) == Start
  {
    VerbIs(t, "START", Start);
  }

  lemma StopIs(t: string)
    requires t == STOP_TEXT
    ensures VerbOf(t) == Stop
  {
    VerbIs(t, "STOP", Stop);
  }

  lemma ResultIs(t: string)
    requires t == RESULT_TEXT
    ensures VerbOf(t) == Result
  {
    VerbIs(t, "RESULT", Result);
  }

  lemma GetReportIs(t: string)
    requires t == "GETREPORT\n"
    ensures VerbOf(t) == GetReport
  {
    VerbIs(t, "GETREPORT", GetReport);
  }

  lemma DoneIs(t: string)
    requires t == DONE_TEXT
    ensures VerbOf(t) == Done
  {
    VerbIs(t, "DONE", Done);
  }

  // Whatever its arguments, and even when cut short, it is a PREPARE.
  lemma PrepareIs(layer: string, test: string, args: string)
    ensures VerbOf(PrepareText(layer, test, args)) == Prepare
  {
    var t := PrepareText(layer, test, args);
    assert |t| >= 9 && t[..8] == "PREPARE ";
    assert t[..7] == t[..8][..7] == "PREPARE" && t[7] == t[..8][7];
    VerbIs(t, "PREPARE", Prepare);
  }

  // White space separates the words before it from those behind it.
  lemma {:induction false} WordsConcat(a: string, c: char, b: string)
    requires IsSpace(c)
    ensures Words(a + ([c] + b)) == Words(a) + Words(b)
    decreases |a|
  {
    if |a| == 0 {
      assert a + ([c] + b) == [c] + b;
      WordsAfterSpace(c, b);
    } else if IsSpace(a[0]) {
      var rest := a[1..];
      assert a + ([c] + b) == [a[0]] + (rest + ([c] + b)) && a == [a[0]] + rest;
      WordsAfterSpace(a[0], rest + ([c] + b));
      WordsAfterSpace(a[0], rest);
      WordsConcat(rest, c, b);
    } else {
      WordStops(a);
      var w := TakeWord(a);
      var rest := a[|w|..];
      assert a == w + rest && a + ([c] + b) == w + (rest + ([c] + b));
      WordsConcat(rest, c, b);
      assert (rest + ([c] + b))[0] == if |rest| == 0 then c else rest[0];
      FirstWord(w, rest, rest + ([c] + b), Words(b));
    }
  }

  lemma FirstWord(w: string, rest: string, both: string, words: seq<string>)
    requires IsWord(w) && (|rest| == 0 || IsSpace(rest[0])) && |both| > 0 && IsSpace(both[0])
    requires Words(both) == Words(rest) + words
    ensures Words(w + both) == Words(w + rest) + words
  {
    WordsOf(w, rest);
    WordsOf(w, both);
    Regroup([w], Words(rest), words);
  }

  lemma {:induction false} WordsAreWords(s: string)
    ensures forall k :: 0 <= k < |Words(s)| ==> IsWord(Words(s)[k])
    decreases |s|
  {
    var r := SkipSpace(s);
    if |r| > 0 {
      WordStops(r);
      WordsAreWords(r[|TakeWord(r)|..]);
    }
  }

  lemma WordAlone(w: string)
    requires IsWord(w)
    ensures Words(w) == [w]
  {
    WordsOf(w, []);
    assert w + [] == w;
  }

  lemma {:induction false} WordsFit(s: string)
    ensures forall k :: 0 <= k < |Words(s)| ==> |Words(s)[k]| <= |s|
    decreases |s|
  {
    var r := SkipSpace(s);
    if |r| > 0 {
      WordsFit(r[|TakeWord(r)|..]);
    }
  }

  // At most the first `n` characters.
  function CutTo(s: string, n: int): string {
    if n <= 0 then [] else if |s| <= n then s else s[..n]
  }

  // What a PREPARE is printed from.
  function PrepareParts(verb: string, layer: string, test: string, args: string): string {
    verb + ([' '] + (layer + ([' '] + (test + PrepareTail(args)))))
  }

  function PrepareTail(args: string): string {
    if args != [] then [' '] + (args + (['\n'] + [])) else ['\n'] + []
  }

  // As much of each part as the command buffer has room for.
  const ROOM := MAX_MSG_SIZE - 1 - 8

  function KeptLayer(layer: string): string {
    CutTo(layer, ROOM)
  }

  function KeptTest(layer: string, test: string): string {
    CutTo(test, ROOM - |layer| - 1)
  }

  function KeptArgs(layer: string, test: string, args: string): string {
    CutTo(args, ROOM - |layer| - |test| - 2)
  }

  lemma PrepareShape(layer: string, test: string, args: string, verb: string)
    requires verb == "PREPARE"
    ensures PrepareText(layer, test, args) == Printed(PrepareParts(verb, layer, test, args))
  {
    Flatten("PREPARE ", verb, layer, test, args);
  }

  lemma Flatten(head: string, verb: string, layer: string, test: string, args: string)
    requires head == verb + [' ']
    ensures args != [] ==> head + layer + " " + test + " " + args + "\n" == PrepareParts(verb, layer, test, args)
    ensures args == [] ==> head + layer + " " + test + "\n" == PrepareParts(verb, layer, test, args)
  {
    var blank: string, end: string := [' '], ['\n'];
    var tail := PrepareTail(args);
    assert verb + blank + layer + blank + test + tail == PrepareParts(verb, layer, test, args);
    assert args != [] ==> tail == blank + args + end;
    assert args == [] ==> tail == end;
  }

  // The words of two parts, cut at `n`.
  lemma CutConcat(a: string, c: char, b: string, n: nat)
    requires IsSpace(c) && n <= |a| + 1 + |b|
    ensures Words(CutTo(a + ([c] + b), n)) == Words(CutTo(a, n)) + Words(CutTo(b, n - |a| - 1))
  {
    var t := a + ([c] + b);
    assert CutTo(t, n) == t[..n];
    if n <= |a| {
      assert t[..n] == CutTo(a, n);
      assert Words(CutTo(a, n)) + [] == Words(CutTo(a, n));
    } else {
      var m := n - |a| - 1;
      assert t[..n] == a + ([c] + b[..m]) && b[..m] == CutTo(b, m) && CutTo(a, n) == a;
      WordsConcat(a, c, b[..m]);
    }
  }

  lemma TestWords(test: string, args: string, n: int)
    requires n <= |test| + |PrepareTail(args)|
    ensures Words(CutTo(test + PrepareTail(args), n)) == Words(CutTo(test, n)) + Words(CutTo(args, n - |test| - 1))
  {
    if n > 0 {
      if args != [] {
        var rest := args + (['\n'] + []);
        CutConcat(test, ' ', rest, n);
        var m := n - |test| - 1;
        if m > 0 {
          CutConcat(args, '\n', [], m);
          assert Words(CutTo(args, m)) + [] == Words(CutTo(args, m));
        }
      } else {
        CutConcat(test, '\n', [], n);
      }
    }
  }

  lemma LayerWords(layer: string, rest: string, n: nat, words: seq<string>, more: seq<string>)
    requires n <= |layer| + 1 + |rest|
    requires Words(CutTo(rest, n - |layer| - 1)) == words + more
    ensures Words(CutTo(layer + ([' '] + rest), n)) == Words(CutTo(layer, n)) + words + more
  {
    CutConcat(layer, ' ', rest, n);
    Regroup(Words(CutTo(layer, n)), words, more);
  }

  // What the server reads in any PREPARE: the words of as much of the layer,
  // the test and the arguments as fitted the command buffer.
  lemma PrepareArrives(layer: string, test: string, args: string)
    ensures Words(PrepareText(layer, test, args)) ==
            ["PREPARE"] + (Words(KeptLayer(layer)) + Words(KeptTest(layer, test)) + Words(KeptArgs(layer, test, args)))
  {
    PrepareWords(layer, test, args, "PREPARE");
  }

  lemma PrepareWords(layer: string, test: string, args: string, verb: string)
    requires verb == "PREPARE"
    ensures Words(PrepareText(layer, test, args)) ==
            [verb] + (Words(KeptLayer(layer)) + Words(KeptTest(layer, test)) + Words(KeptArgs(layer, test, args)))
  {
    PrepareShape(layer, test, args, verb);
    PrintedWords(layer, test, args, verb);
  }

  lemma PrintedWords(layer: string, test: string, args: string, verb: string)
    requires IsWord(verb) && |verb| == 7
    ensures Words(Printed(PrepareParts(verb, layer, test, args))) ==
            [verb] + (Words(KeptLayer(layer)) + Words(KeptTest(layer, test)) + Words(KeptArgs(layer, test, args)))
  {
    var behind := test + PrepareTail(args);
    var n := Room(layer, test, args);
    TestKept(layer, test, args, n, n - |layer| - 1);
    RoomIs(layer, test, args, n, n - |layer| - 1);
    PrintedParts(verb, layer, behind, n, Words(KeptTest(layer, test)), Words(KeptArgs(layer, test, args)));
  }

  lemma PrintedParts(verb: string, layer: string, behind: string, n: nat, words: seq<string>, more: seq<string>)
    requires IsWord(verb) && |verb| == 7
    requires n == if |layer| + 1 + |behind| < ROOM then |layer| + 1 + |behind| else ROOM
    requires Words(CutTo(behind, n - |layer| - 1)) == words + more
    ensures Words(Printed(verb + ([' '] + (layer + ([' '] + behind))))) == [verb] + (Words(CutTo(layer, n)) + words + more)
  {
    VerbWords(verb, layer + ([' '] + behind), n);
    LayerWords(layer, behind, n, words, more);
  }

  // What is printed behind the verb and its blank.
  function Room(layer: string, test: string, args: string): nat {
    var n := |layer| + 1 + |test| + |PrepareTail(args)|;
    if n < ROOM then n else ROOM
  }

  lemma TestKept(layer: string, test: string, args: string, n: nat, m: int)
    requires n == Room(layer, test, args) && m == n - |layer| - 1
    ensures Words(CutTo(test + PrepareTail(args), m)) == Words(KeptTest(layer, test)) + Words(KeptArgs(layer, test, args))
  {
    TestWords(test, args, m);
    RoomIs(layer, test, args, n, m);
  }

  lemma VerbWords(verb: string, rest: string, n: nat)
    requires IsWord(verb) && |verb| == 7 && n == if |rest| < ROOM then |rest| else ROOM
    ensures Words(Printed(verb + ([' '] + rest))) == [verb] + Words(CutTo(rest, n))
  {
    var t := verb + ([' '] + rest);
    assert Printed(t) == CutTo(t, n + 8);
    CutConcat(verb, ' ', rest, n + 8);
    assert CutTo(verb, n + 8) == verb;
    WordAlone(verb);
  }

  // Where everything fits, the room does not matter.
  lemma RoomIs(layer: string, test: string, args: string, n: nat, m: int)
    requires n == Room(layer, test, args) && m == n - |layer| - 1
    ensures CutTo(layer, n) == KeptLayer(layer)
    ensures CutTo(test, m) == KeptTest(layer, test)
    ensures CutTo(args, m - |test| - 1) == KeptArgs(layer, test, args)
  {
  }

  // ---------------------------------------------------------------------
  // What of a PREPARE reaches the callback as it was meant
  // ---------------------------------------------------------------------

  // parts[k], or "" past the end.
  function NameAt(parts: seq<string>, k: nat): string {
    if |parts| > k then parts[k] else ""
  }

  // " ".join (parts[3:])
  function ArgsOf(parts: seq<string>): string {
    if |parts| > 3 then Join(parts[3..]) else ""
  }

  // The callback is given the two names that the client named exactly when
  // they are words and fit, or are missing from the end of an otherwise blank
  // command.
  lemma NamesArriveIff(layer: string, test: string, args: string)
    ensures var parts := Words(PrepareText(layer, test, args));
            && |parts| > 0
            && (NameAt(parts, 1) == layer && NameAt(parts, 2) == test <==>
                  || (IsWord(layer) && IsWord(test) && |layer| + |test| <= ROOM - 1)
                  || (test == "" && Words(KeptArgs(layer, test, args)) == [] && (layer == "" || (IsWord(layer) && |layer| <= ROOM))))
  {
    PrepareArrives(layer, test, args);
    NamesOf("PREPARE", layer, test, KeptLayer(layer), KeptTest(layer, test), KeptArgs(layer, test, args));
    assert KeptLayer(layer) == layer <==> |layer| <= ROOM;
    assert test != "" ==> (KeptTest(layer, test) == test <==> |layer| + |test| <= ROOM - 1);
  }

  // `s` or less of it.
  ghost predicate Kept(kept: string, s: string) {
    kept == s || |kept| < |s|
  }

  lemma NamesOf(verb: string, layer: string, test: string, l: string, t: string, args: string)
    requires Kept(l, layer) && Kept(t, test)
    requires (l != layer ==> t == [] && args == []) && (t != test ==> args == [])
    ensures var parts := [verb] + (Words(l) + Words(t) + Words(args));
            NameAt(parts, 1) == layer && NameAt(parts, 2) == test <==>
              || (IsWord(layer) && IsWord(test) && l == layer && t == test)
              || (test == "" && Words(args) == [] && (layer == "" || (IsWord(layer) && l == layer)))
  {
    WordsAreWords(l);
    WordsAreWords(t);
    WordsAreWords(args);
    WordsFit(l);
    WordsFit(t);
    assert Words("") == [];
    if IsWord(layer) && l == layer {
      WordAlone(layer);
    }
    if IsWord(test) && t == test {
      WordAlone(test);
    }
    NamesIn(verb, layer, test, Words(l), Words(t), Words(args), l == layer, t == test);
  }

  // The same of the words themselves; a name that was cut is not among them.
  lemma NamesIn(verb: string, layer: string, test: string, a: seq<string>, b: seq<string>, c: seq<string>, whole: bool, wholeTest: bool)
    requires AllWords(a) && AllWords(b) && AllWords(c)
    requires if whole then IsWord(layer) ==> a == [layer] else layer != "" && layer !in a && b == [] && c == []
    requires if wholeTest then IsWord(test) ==> b == [test] else test != "" && test !in b && c == []
    requires (layer == "" ==> a == []) && (test == "" ==> b == [])
    ensures var parts := [verb] + (a + b + c);
            NameAt(parts, 1) == layer && NameAt(parts, 2) == test <==>
              || (IsWord(layer) && IsWord(test) && whole && wholeTest)
              || (test == "" && c == [] && (layer == "" || (IsWord(layer) && whole)))
  {
    var parts, all := [verb] + (a + b + c), a + b + c;
    assert NameAt(parts, 1) == NameAt(all, 0) && NameAt(parts, 2) == NameAt(all, 1);
    assert forall k :: 0 <= k < |all| ==> all[k] in a || all[k] in b || all[k] in c;
    assert forall w :: w in all ==> IsWord(w);
  }

  ghost predicate AllWords(ws: seq<string>) {
    forall k :: 0 <= k < |ws| ==> IsWord(ws[k])
  }

  // Words with one blank between each two, and nothing around them.
  ghost predicate Spaced(s: string) {
    forall i :: 0 <= i < |s| && IsSpace(s[i]) ==> s[i] == ' ' && 0 < i < |s| - 1 && !IsSpace(s[i - 1]) && !IsSpace(s[i + 1])
  }

  // Exactly those come back when their words are joined.
  lemma JoinedIffSpaced(s: string)
    ensures Join(Words(s)) == s <==> Spaced(s)
  {
    if Spaced(s) {
      SpacedJoins(s);
    }
    WordsAreWords(s);
    JoinIsSpaced(Words(s));
  }

  lemma {:induction false} SpacedJoins(s: string)
    requires Spaced(s)
    ensures Join(Words(s)) == s
    decreases |s|
  {
    if |s| > 0 {
      assert !IsSpace(s[0]);
      WordStops(s);
      var w := TakeWord(s);
      if |w| == |s| {
        assert w == s;
        WordAlone(s);
      } else {
        var rest := s[|w| + 1..];
        assert s == w + ([' '] + rest) && |rest| > 0 && !IsSpace(rest[0]);
        TailSpaced(s, |w| + 1);
        SpacedJoins(rest);
        WordsConcat(w, ' ', rest);
        WordAlone(w);
        FirstJoined(w, Words(rest));
      }
    }
  }

  lemma TailSpaced(s: string, k: nat)
    requires Spaced(s) && 0 < k < |s| && IsSpace(s[k - 1])
    ensures Spaced(s[k..])
  {
    var t := s[k..];
    forall i | 0 <= i < |t| && IsSpace(t[i]) ensures t[i] == ' ' && 0 < i < |t| - 1 && !IsSpace(t[i - 1]) && !IsSpace(t[i + 1]) {
      assert t[i] == s[k + i];
    }
  }

  lemma FirstJoined(w: string, more: seq<string>)
    requires |more| > 0
    ensures Join([w] + more) == w + ([' '] + Join(more))
  {
    assert ([w] + more)[1..] == more;
    Regroup(w, [' '], Join(more));
  }

  lemma {:induction false} JoinIsSpaced(ws: seq<string>)
    requires forall k :: 0 <= k < |ws| ==> IsWord(ws[k])
    ensures Spaced(Join(ws)) && (|ws| > 0 ==> |Join(ws)| > 0 && !IsSpace(Join(ws)[0]))
  {
    if |ws| > 1 {
      var w, more := ws[0], ws[1..];
      JoinIsSpaced(more);
      assert ws == [w] + more;
      FirstJoined(w, more);
      WordThenSpaced(w, Join(more));
    } else if |ws| == 1 {
      assert IsWord(ws[0]);
    }
  }

  lemma WordThenSpaced(w: string, rest: string)
    requires IsWord(w) && Spaced(rest) && |rest| > 0 && !IsSpace(rest[0])
    ensures Spaced(w + ([' '] + rest))
  {
    var s := w + ([' '] + rest);
    forall i | 0 <= i < |s| && IsSpace(s[i]) ensures s[i] == ' ' && 0 < i < |s| - 1 && !IsSpace(s[i - 1]) && !IsSpace(s[i + 1]) {
      if i > |w| {
        assert s[i] == rest[i - |w| - 1] && s[i - 1] == if i == |w| + 1 then ' ' else rest[i - |w| - 2];
      }
    }
  }

  lemma {:induction false} JoinedFits(s: string)
    ensures |Join(Words(s))| <= |s|
    decreases |s|
  {
    var r := SkipSpace(s);
    if |r| > 0 {
      WordStops(r);
      var w := TakeWord(r);
      var rest := r[|w|..];
      assert Words(s) == [w] + Words(rest);
      if |rest| > 0 {
        assert rest == [rest[0]] + rest[1..];
        WordsAfterSpace(rest[0], rest[1..]);
        JoinedFits(rest[1..]);
      }
      if |Words(rest)| > 0 {
        FirstJoined(w, Words(rest));
      }
    }
  }

  // What a PREPARE can carry: two words as names, arguments that are words
  // with one blank between each two, all of it within the command buffer; or
  // at most a layer.
  ghost predicate Arrives(layer: string, test: string, args: string) {
    || (IsWord(layer) && IsWord(test) && Spaced(args) && |layer| + |test| <= 502
        && (args == "" || |layer| + |test| + |args| <= 501))
    || (test == "" && args == "" && (layer == "" || (IsWord(layer) && |layer| <= 503)))
  }

  // Exactly then the whole request arrives as it was meant.
  lemma RequestArrivesIff(layer: string, test: string, args: string)
    ensures var parts := Words(PrepareText(layer, test, args));
            NameAt(parts, 1) == layer && NameAt(parts, 2) == test && ArgsOf(parts) == args <==> Arrives(layer, test, args)
  {
    var kept := KeptArgs(layer, test, args);
    NamesArriveIff(layer, test, args);
    PrepareArrives(layer, test, args);
    KeptIff(layer, test, args);
    if IsWord(layer) && IsWord(test) && |layer| + |test| <= 502 {
      WordAlone(layer);
      WordAlone(test);
      ArgsAre("PREPARE", layer, test, Words(kept));
      JoinedIffSpaced(kept);
      JoinedFits(kept);
    } else if Words(kept) == [] {
      NoArgs("PREPARE", layer, test, KeptLayer(layer), KeptTest(layer, test));
    }
  }

  lemma KeptIff(layer: string, test: string, args: string)
    ensures KeptArgs(layer, test, args) == args <==> args == "" || |layer| + |test| + |args| <= ROOM - 2
    ensures Kept(KeptArgs(layer, test, args), args)
  {
  }

  lemma ArgsAre(verb: string, layer: string, test: string, more: seq<string>)
    ensures ArgsOf([verb] + ([layer] + [test] + more)) == Join(more)
  {
    assert ([verb] + ([layer] + [test] + more))[3..] == more;
  }

  lemma NoArgs(verb: string, layer: string, test: string, l: string, t: string)
    requires test == "" ==> t == ""
    ensures var parts := [verb] + (Words(l) + Words(t) + []);
            test == "" && NameAt(parts, 1) == layer && NameAt(parts, 2) == test ==> ArgsOf(parts) == ""
  {
    WordsAreWords(l);
    assert Words("") == [];
  }

  lemma {:induction false} WordStops(s: string)
    ensures var w := TakeWord(s);
            (forall i :: 0 <= i < |w| ==> !IsSpace(w[i])) && (|w| < |s| ==> IsSpace(s[|w|]))
  {
    if s != [] && !IsSpace(s[0]) {
      WordStops(s[1..]);
    }
  }

  // ---------------------------------------------------------------------
  // Replies of the server
  // ---------------------------------------------------------------------

  const ACK_HELLO := "ACK DDTSoft Companion 1.0\n"
  const ACK_TEXT := "ACK\n"
  const CONFIRM_TEXT := "CONFIRM\n"
  const NOT_CONNECTED := "ERROR Not connected\n"

  function Ready(detail: string): string { "READY " + detail + "\n" }
  function Report(result: string): string { "REPORT " + result + "\n" }
  function Error(detail: string): string { "ERROR " + detail + "\n" }

  // The receive buffer keeps a reply up to its size less one.
  function Cut(text: string, size: nat): string {
    if |text| < size then text else text[..if size == 0 then 0 else size - 1]
  }

  // AsciiStrnCmp (Response, word, |word|) == 0
  predicate StartsWith(text: string, word: string) {
    word <= text
  }

  // The four openings exclude one another.
  lemma Distinct(text: string)
    ensures StartsWith(text, "ERROR") ==> !StartsWith(text, "READY") && !StartsWith(text, "REPORT") && !StartsWith(text, "ACK")
    ensures StartsWith(text, "ACK") ==> !StartsWith(text, "READY") && !StartsWith(text, "REPORT")
    ensures StartsWith(text, "READY") ==> !StartsWith(text, "REPORT")
  {
    assert StartsWith(text, "ERROR") ==> text[0] == 'E';
    assert StartsWith(text, "ACK") ==> text[0] == 'A';
    assert StartsWith(text, "READY") ==> text[0] == 'R' && text[2] == 'A';
    assert StartsWith(text, "REPORT") ==> text[0] == 'R' && text[2] == 'P';
  }
}
