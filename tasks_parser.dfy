// TasksParser: cleaning a task line, the combinators that split it into
// bare words and quoted strings, the classification of those tokens into
// the command name and its arguments, and ParseTasks over a file's lines.
module TasksParser {
  import opened Errors
  import opened Chars
  import Commands
  import Registry

  /** parsec::Result: the value and the index after it, or the index the
      failure is reported at. */
  datatype PResult<+T> = Ok(value: T, next: nat) | Err(at: nat)

  /** How parsec::many treats an element parser that fails after consuming
      input. Backtrack stops and keeps the elements so far; Propagate fails
      the whole parse, as Parsec does. The library is not part of this
      model, so every result below is stated for a given policy. */
  datatype ManyPolicy = Backtrack | Propagate

  // The character classes the parsers and CleanLine use.
  predicate IsBlank(c: char) { c == ' ' || c == '\t' }
  predicate IsTrailing(c: char) { c == ' ' || c == '\t' || c == '\r' || c == '\n' }
  predicate NotHash(c: char) { c != '#' }
  predicate NotQuote(c: char) { c != '"' }
  /** word_parser's characters: neither whitespace nor a double quote. */
  predicate IsWordChar(c: char) { !IsSpace(c) && c != '"' }

  // ---------------------------------------------------------------------
  // Primitive parsers

  /** char_p(c). */
  function CharP(c: char, s: string, i: nat): PResult<char> {
    if i < |s| && s[i] == c then Ok(c, i + 1) else Err(i)
  }

  /** char_p_if(p). */
  function CharIf(p: char -> bool, s: string, i: nat): PResult<char> {
    if i < |s| && p(s[i]) then Ok(s[i], i + 1) else Err(i)
  }

  /** many(char_p_if(p)): repeats the character parser until it fails,
      which consumes nothing, so the policy does not matter here. */
  function ManyChars(p: char -> bool, s: string, i: nat): (r: PResult<string>)
    decreases |s| - i
  {
    match CharIf(p, s, i)
    case Err(_) => Ok([], i)
    case Ok(c, j) =>
      match ManyChars(p, s, j)
      case Ok(cs, k) => Ok([c] + cs, k)
      case Err(e) => Err(e)
  }

  /** many1(char_p_if(p)). */
  function Many1Chars(p: char -> bool, s: string, i: nat): PResult<string> {
    match CharIf(p, s, i)
    case Err(e) => Err(e)
    case Ok(c, j) =>
      match ManyChars(p, s, j)
      case Ok(cs, k) => Ok([c] + cs, k)
      case Err(e) => Err(e)
  }

  /** The character combinators take exactly the longest run of matching
      characters: many never fails, and many1 fails, at the start, only
      when the run is empty. */
  lemma {:induction false} ManyCharsRun(p: char -> bool, s: string, i: nat)
    requires i <= |s|
    ensures ManyChars(p, s, i) == Ok(s[i..RunEnd(p, s, i)], RunEnd(p, s, i))
    ensures Many1Chars(p, s, i) ==
      if RunEnd(p, s, i) == i then Err(i) else Ok(s[i..RunEnd(p, s, i)], RunEnd(p, s, i))
    decreases |s| - i
  {
    if i < |s| && p(s[i]) {
      ManyCharsRun(p, s, i + 1);
      var e := RunEnd(p, s, i);
      assert e == RunEnd(p, s, i + 1);
      assert CharIf(p, s, i) == Ok(s[i], i + 1);
      assert ManyChars(p, s, i) == Ok([s[i]] + s[i + 1..e], e);
      assert [s[i]] + s[i + 1..e] == s[i..e];
    } else {
      assert CharIf(p, s, i).Err?;
      assert RunEnd(p, s, i) == i;
      assert ManyChars(p, s, i) == Ok([], i);
      assert s[i..i] == [];
    }
  }

  /** spaces(): always succeeds, with the run of whitespace at i. */
  function Spaces(s: string, i: nat): PResult<string>
    requires i <= |s|
  {
    Ok(s[i..RunEnd(IsSpace, s, i)], RunEnd(IsSpace, s, i))
  }

  /** spaces1(): like spaces() but fails, at i, when there is none. */
  function Spaces1(s: string, i: nat): PResult<string>
    requires i <= |s|
  {
    var j := RunEnd(IsSpace, s, i);
    if j > i then Ok(s[i..j], j) else Err(i)
  }

  /** The loop of spaces(): advances over whitespace. */
  method SpacesLoop(s: string, i: nat) returns (r: PResult<string>)
    requires i <= |s|
    ensures r == Spaces(s, i)
    ensures r.next - i == |r.value| && forall k :: 0 <= k < |r.value| ==> IsSpace(r.value[k])
  {
    var index := i;
    while index < |s| && IsSpace(s[index])
      invariant i <= index <= |s|
      invariant RunEnd(IsSpace, s, index) == RunEnd(IsSpace, s, i)
    {
      index := index + 1;
    }
    r := Ok(s[i..index], index);
  }

  /** The loop of spaces1(): advances over whitespace, failing at the
      start when there is none. */
  method Spaces1Loop(s: string, i: nat) returns (r: PResult<string>)
    requires i <= |s|
    ensures r == Spaces1(s, i)
    ensures r.Err? <==> i == |s| || !IsSpace(s[i])
    ensures r.Err? ==> r.at == i
    ensures r.Ok? ==> r.next - i == |r.value| > 0
  {
    var index := i;
    while index < |s| && IsSpace(s[index])
      invariant i <= index <= |s|
      invariant RunEnd(IsSpace, s, index) == RunEnd(IsSpace, s, i)
    {
      index := index + 1;
    }
    if index > i {
      r := Ok(s[i..index], index);
    } else {
      r := Err(i);
    }
  }

  // ---------------------------------------------------------------------
  // Word parsers

  /** word_parser(): a non-empty run of word characters. */
  function Word(s: string, i: nat): PResult<string> {
    Many1Chars(IsWordChar, s, i)
  }

  /** quoted_string_parser(): a double quote, the characters up to the
      next double quote, and that quote; the value is the text between. */
  function Quoted(s: string, i: nat): PResult<string> {
    match CharP('"', s, i)
    case Err(e) => Err(e)
    case Ok(_, j) =>
      match ManyChars(NotQuote, s, j)
      case Err(e) => Err(e)
      case Ok(body, k) =>
        match CharP('"', s, k)
        case Err(e) => Err(e)
        case Ok(_, l) => Ok(body, l)
  }

  /** uppercase_word_parser(): a word all of whose characters are
      uppercase letters; fails at i otherwise. */
  function Upper(s: string, i: nat): PResult<string> {
    match Word(s, i)
    case Err(_) => Err(i)
    case Ok(w, j) => if AllUpper(w) then Ok(w, j) else Err(i)
  }

  /** The primitive parsers move the index past exactly what they matched
      and report a failure at the index they started from; spaces() never
      fails, spaces1() only when there is no whitespace, and a word is
      never empty. */
  lemma PrimitivesAdvance(c: char, p: char -> bool, s: string, i: nat)
    requires i <= |s|
    ensures CharP(c, s, i).Ok? <==> i < |s| && s[i] == c
    ensures CharP(c, s, i).Ok? ==> CharP(c, s, i) == Ok(c, i + 1)
    ensures CharP(c, s, i).Err? ==> CharP(c, s, i).at == i
    ensures CharIf(p, s, i).Ok? <==> i < |s| && p(s[i])
    ensures CharIf(p, s, i).Ok? ==> CharIf(p, s, i) == Ok(s[i], i + 1)
    ensures CharIf(p, s, i).Err? ==> CharIf(p, s, i).at == i
    ensures Spaces(s, i).Ok? && Spaces(s, i).next == i + |Spaces(s, i).value|
    ensures Spaces1(s, i).Ok? <==> i < |s| && IsSpace(s[i])
    ensures Spaces1(s, i).Ok? ==> Spaces1(s, i) == Spaces(s, i)
    ensures Spaces1(s, i).Err? ==> Spaces1(s, i).at == i
    ensures Word(s, i).Ok? <==> i < |s| && IsWordChar(s[i])
    ensures Word(s, i).Ok? ==> Word(s, i).value != [] && i < Word(s, i).next <= |s| && s[i..Word(s, i).next] == Word(s, i).value
    ensures Word(s, i).Err? ==> Word(s, i).at == i
    ensures Upper(s, i).Ok? <==> Word(s, i).Ok? && AllUpper(Word(s, i).value)
    ensures Upper(s, i).Ok? ==> Upper(s, i) == Word(s, i)
    ensures Upper(s, i).Err? ==> Upper(s, i).at == i
  {
    ManyCharsRun(IsWordChar, s, i);
  }

  /** A word at i is exactly the run of word characters that starts there. */
  lemma WordAt(s: string, i: nat, j: nat)
    requires i < j <= |s|
    requires forall k :: i <= k < j ==> IsWordChar(s[k])
    requires j == |s| || !IsWordChar(s[j])
    ensures Word(s, i) == Ok(s[i..j], j)
  {
    RunEndAt(IsWordChar, s, i, j);
    ManyCharsRun(IsWordChar, s, i);
  }

  /** A quoted string at i is the text up to the next double quote, which
      must exist. */
  lemma QuotedAt(s: string, i: nat)
    requires i < |s| && s[i] == '"'
    ensures var k := RunEnd(NotQuote, s, i + 1);
      Quoted(s, i) == if k < |s| then Ok(s[i + 1..k], k + 1) else Err(k)
  {
    ManyCharsRun(NotQuote, s, i + 1);
  }

  // ---------------------------------------------------------------------
  // Tokens and the command line

  /** The pair of optionals token_classifier_parser returns: exactly one
      of them is set. */
  datatype Token = NamePart(word: string) | Argument(text: string)

  /** token_classifier_parser: an uppercase word is part of the command
      name; otherwise a quoted string or a bare word is an argument. */
  function Classify(s: string, i: nat): (r: PResult<Token>)
    requires i <= |s|
    ensures r.Ok? ==> i < r.next <= |s|
    ensures r.Err? ==> r.at == i
    ensures r.Ok? && r.value.NamePart? ==> r.value.word != [] && AllUpper(r.value.word)
  {
    match Upper(s, i)
    case Ok(w, j) =>
      ManyCharsRun(IsWordChar, s, i);
      Ok(NamePart(w), j)
    case Err(_) =>
      match Quoted(s, i)
      case Ok(a, j) =>
        QuotedAt(s, i);
        Ok(Argument(a), j)
      case Err(_) =>
        match Word(s, i)
        case Ok(a, j) =>
          ManyCharsRun(IsWordChar, s, i);
          Ok(Argument(a), j)
        case Err(_) => Err(i)
  }

  /** spaces1() >> token_classifier_parser. */
  function Item(s: string, i: nat): (r: PResult<Token>)
    requires i <= |s|
    ensures r.Ok? ==> i < r.next <= |s|
  {
    match Spaces1(s, i)
    case Err(e) => Err(e)
    case Ok(_, j) => Classify(s, j)
  }

  /** many(spaces1() >> token_classifier_parser). An element that fails
      where it started (no whitespace) ends the list; one that fails after
      the whitespace ends it too under Backtrack and fails it under
      Propagate. */
  function Many(policy: ManyPolicy, s: string, i: nat): (r: PResult<seq<Token>>)
    requires i <= |s|
    ensures r.Ok? ==> i <= r.next <= |s|
    decreases |s| - i
  {
    match Item(s, i)
    case Err(e) => if policy == Propagate && e != i then Err(e) else Ok([], i)
    case Ok(t, j) =>
      match Many(policy, s, j)
      case Ok(ts, k) => Ok([t] + ts, k)
      case Err(e) => Err(e)
  }

  /** TaskFile: the command name and its arguments. */
  datatype TaskLine = TaskLine(name: string, args: seq<string>)

  /** " W" for every name part W of the tokens, in order. */
  function NameSuffix(ts: seq<Token>): string {
    if ts == [] then ""
    else NameSuffix(ts[..|ts| - 1]) + (if ts[|ts| - 1].NamePart? then " " + ts[|ts| - 1].word else "")
  }

  /** The arguments among the tokens, in order. */
  function TokenArgs(ts: seq<Token>): seq<string> {
    if ts == [] then []
    else TokenArgs(ts[..|ts| - 1]) + (if ts[|ts| - 1].Argument? then [ts[|ts| - 1].text] else [])
  }

  /** ExtractCommandAndArgs(): an uppercase word, then many(spaces1() >>
      token_classifier_parser), folded into the name and the arguments.
      Nothing checks that the whole line was consumed. */
  function ExtractCommandAndArgs(policy: ManyPolicy, s: string, i: nat): (r: PResult<TaskLine>)
    requires i <= |s|
  {
    match Upper(s, i)
    case Err(e) => Err(e)
    case Ok(w, j) =>
      ManyCharsRun(IsWordChar, s, i);
      match Many(policy, s, j)
      case Err(e) => Err(e)
      case Ok(ts, k) => Ok(TaskLine(w + NameSuffix(ts), TokenArgs(ts)), k)
  }

  /** The loop of the fmap that folds the tokens: every name part is
      appended to the name after a space, every argument to the list. */
  method FoldTokens(first: string, ts: seq<Token>) returns (line: TaskLine)
    ensures line == TaskLine(first + NameSuffix(ts), TokenArgs(ts))
  {
    var commandName := first;
    var arguments := [];
    for k := 0 to |ts|
      invariant commandName == first + NameSuffix(ts[..k])
      invariant arguments == TokenArgs(ts[..k])
    {
      assert ts[..k + 1][..k] == ts[..k];
      match ts[k] {
        case NamePart(w) =>
          commandName := commandName + " " + w;
        case Argument(a) =>
          arguments := arguments + [a];
      }
    }
    assert ts[..|ts|] == ts;
    line := TaskLine(commandName, arguments);
  }

  // ---------------------------------------------------------------------
  // Properties of the tokenizer

  /** Under Propagate the parse can only fail where Backtrack would stop;
      when Propagate succeeds, Backtrack gives the same tokens. Backtrack
      never fails. */
  lemma {:induction false} ManyPolicies(s: string, i: nat)
    requires i <= |s|
    ensures Many(Backtrack, s, i).Ok?
    ensures Many(Propagate, s, i).Ok? ==> Many(Backtrack, s, i) == Many(Propagate, s, i)
    decreases |s| - i
  {
    match Item(s, i)
    case Err(_) =>
    case Ok(_, j) => ManyPolicies(s, j);
  }

  /** The line parses exactly when it starts with an uppercase word under
      Backtrack; under Propagate that is still necessary, and whatever
      Propagate returns Backtrack returns too. */
  lemma ExtractPolicies(s: string, i: nat)
    requires i <= |s|
    ensures ExtractCommandAndArgs(Backtrack, s, i).Ok? <==> Upper(s, i).Ok?
    ensures ExtractCommandAndArgs(Propagate, s, i).Ok? ==>
      ExtractCommandAndArgs(Backtrack, s, i) == ExtractCommandAndArgs(Propagate, s, i)
  {
    if Upper(s, i).Ok? {
      ManyCharsRun(IsWordChar, s, i);
      ManyPolicies(s, Upper(s, i).next);
    }
  }

  /** The command name is the uppercase first word followed by the later
      uppercase words, each after one space: a non-empty string of
      uppercase letters and spaces that starts with a letter. */
  lemma {:induction false} NameSuffixUpper(ts: seq<Token>)
    requires forall k :: 0 <= k < |ts| && ts[k].NamePart? ==> AllUpper(ts[k].word)
    ensures forall k :: 0 <= k < |NameSuffix(ts)| ==> IsUpper(NameSuffix(ts)[k]) || NameSuffix(ts)[k] == ' '
  {
    if ts != [] {
      NameSuffixUpper(ts[..|ts| - 1]);
    }
  }

  lemma {:induction false} ManyNameParts(policy: ManyPolicy, s: string, i: nat)
    requires i <= |s| && Many(policy, s, i).Ok?
    ensures var ts := Many(policy, s, i).value;
      forall k :: 0 <= k < |ts| && ts[k].NamePart? ==> AllUpper(ts[k].word)
    decreases |s| - i
  {
    match Item(s, i)
    case Err(_) =>
    case Ok(t, j) =>
      ManyNameParts(policy, s, j);
      var ts := Many(policy, s, i).value;
      assert ts == [t] + Many(policy, s, j).value;
  }

  lemma CommandNameUpper(policy: ManyPolicy, s: string, i: nat)
    requires i <= |s| && ExtractCommandAndArgs(policy, s, i).Ok?
    ensures var name := ExtractCommandAndArgs(policy, s, i).value.name;
      name != [] && IsUpper(name[0]) &&
      forall k :: 0 <= k < |name| ==> IsUpper(name[k]) || name[k] == ' '
  {
    ManyCharsRun(IsWordChar, s, i);
    var j := Upper(s, i).next;
    ManyNameParts(policy, s, j);
    NameSuffixUpper(Many(policy, s, j).value);
  }

  /** A token that starts with a double quote is never part of the name:
      it is an argument whose text is what stood between the quotes, with
      no quote in it. */
  lemma QuotedIsArgument(s: string, i: nat)
    requires i < |s| && s[i] == '"' && Classify(s, i).Ok?
    ensures var r := Classify(s, i);
      r.value.Argument? && r.next >= i + 2 && s[r.next - 1] == '"' &&
      r.value.text == s[i + 1..r.next - 1] && '"' !in r.value.text
  {
    ManyCharsRun(IsWordChar, s, i);
    RunEndAt(IsWordChar, s, i, i);
    QuotedAt(s, i);
  }

  // ---------------------------------------------------------------------
  // Writing tokens back as a line

  /** A word the parser reads as part of the command name. */
  predicate NameWord(w: string) {
    w != [] && AllUpper(w)
  }

  /** An argument that can be written without quotes: a non-empty word
      that is not all uppercase. */
  predicate BareArgument(a: string) {
    a != [] && (forall k :: 0 <= k < |a| ==> IsWordChar(a[k])) && !AllUpper(a)
  }

  /** Tokens a line can carry: name words, and arguments without a double
      quote (quoted unless they are bare). */
  predicate Writable(t: Token) {
    match t
    case NamePart(w) => NameWord(w)
    case Argument(a) => '"' !in a
  }

  function TokenText(t: Token): string {
    match t
    case NamePart(w) => w
    case Argument(a) => if BareArgument(a) then a else "\"" + a + "\""
  }

  /** Each token after one space. */
  function RenderTail(ts: seq<Token>): string {
    if ts == [] then "" else " " + TokenText(ts[0]) + RenderTail(ts[1..])
  }

  /** A name word written at j, followed by a space or the end, is read
      back as a name part. */
  lemma ClassifyName(s: string, j: nat, w: string)
    requires NameWord(w)
    requires j + |w| <= |s| && s[j..j + |w|] == w
    requires j + |w| == |s| || s[j + |w|] == ' '
    ensures Classify(s, j) == Ok(NamePart(w), j + |w|)
  {
    var e := j + |w|;
    assert forall k :: j <= k < e ==> s[k] == w[k - j];
    WordAt(s, j, e);
  }

  /** A bare argument written at j, followed by a space or the end, is
      read back as an argument. */
  lemma ClassifyBare(s: string, j: nat, a: string)
    requires BareArgument(a)
    requires j + |a| <= |s| && s[j..j + |a|] == a
    requires j + |a| == |s| || s[j + |a|] == ' '
    ensures Classify(s, j) == Ok(Argument(a), j + |a|)
  {
    var e := j + |a|;
    assert forall k :: j <= k < e ==> s[k] == a[k - j];
    WordAt(s, j, e);
    assert s[j] == a[0];
  }

  /** A quoted argument written at j is read back as the text between the
      quotes. */
  lemma ClassifyQuoted(s: string, j: nat, a: string)
    requires '"' !in a
    requires j + |a| + 2 <= |s| && s[j..j + |a| + 2] == "\"" + a + "\""
    ensures Classify(s, j) == Ok(Argument(a), j + |a| + 2)
  {
    var e := j + |a| + 2;
    assert s[j] == '"';
    assert forall k :: j + 1 <= k < e - 1 ==> s[k] == a[k - j - 1];
    assert s[e - 1] == '"';
    RunEndAt(NotQuote, s, j + 1, e - 1);
    QuotedAt(s, j);
    assert s[j + 1..e - 1] == a;
    ManyCharsRun(IsWordChar, s, j);
    RunEndAt(IsWordChar, s, j, j);
  }

  /** A token written at j, followed by a space or the end, is read back. */
  lemma ClassifyToken(s: string, j: nat, t: Token)
    requires Writable(t)
    requires j + |TokenText(t)| <= |s| && s[j..j + |TokenText(t)|] == TokenText(t)
    requires j + |TokenText(t)| == |s| || s[j + |TokenText(t)|] == ' '
    ensures Classify(s, j) == Ok(t, j + |TokenText(t)|)
  {
    match t
    case NamePart(w) => ClassifyName(s, j, w);
    case Argument(a) =>
      if BareArgument(a) {
        ClassifyBare(s, j, a);
      } else {
        ClassifyQuoted(s, j, a);
      }
  }

  /** A space and a token written at j, followed by a space or the end,
      are read back as that token. */
  lemma ItemRender(s: string, j: nat, t: Token)
    requires Writable(t)
    requires j + 1 + |TokenText(t)| <= |s| && s[j..j + 1 + |TokenText(t)|] == " " + TokenText(t)
    requires j + 1 + |TokenText(t)| == |s| || s[j + 1 + |TokenText(t)|] == ' '
    ensures Item(s, j) == Ok(t, j + 1 + |TokenText(t)|)
  {
    var text := TokenText(t);
    var e := j + 1 + |text|;
    assert s[j..e][0] == ' ';
    assert (" " + text)[1..] == text;
    assert s[j + 1..e] == s[j..e][1..];
    assert text[0] == s[j + 1];
    assert !IsSpace(s[j + 1]) by {
      match t {
        case NamePart(w) => assert IsUpper(w[0]);
        case Argument(a) =>
      }
    }
    RunEndAt(IsSpace, s, j, j + 1);
    ClassifyToken(s, j + 1, t);
  }

  /** At the end of the line many() reads nothing. */
  lemma ManyAtEnd(policy: ManyPolicy, s: string, j: nat)
    requires j == |s|
    ensures Many(policy, s, j) == Ok([], |s|)
  {
    RunEndAt(IsSpace, s, j, j);
    assert Item(s, j) == Err(j);
  }

  /** many() reads an element and then the rest. */
  lemma ManyCons(policy: ManyPolicy, s: string, j: nat, ts: seq<Token>)
    requires j <= |s| && |ts| > 0 && Item(s, j).Ok? && Item(s, j).value == ts[0]
    requires Many(policy, s, Item(s, j).next) == Ok(ts[1..], |s|)
    ensures Many(policy, s, j) == Ok(ts, |s|)
  {
    assert [ts[0]] + ts[1..] == ts;
  }

  /** Writable tokens written one after another, each after a space, are
      read back as the same tokens up to the end of the line, under either
      policy. */
  lemma {:induction false} ManyRender(policy: ManyPolicy, s: string, j: nat, ts: seq<Token>)
    requires forall k :: 0 <= k < |ts| ==> Writable(ts[k])
    requires j <= |s| && s[j..] == RenderTail(ts)
    ensures Many(policy, s, j) == Ok(ts, |s|)
    decreases ts
  {
    if ts == [] {
      ManyAtEnd(policy, s, j);
    } else {
      var text := TokenText(ts[0]);
      var e := j + 1 + |text|;
      assert s[j..] == " " + text + RenderTail(ts[1..]);
      assert s[j..e] == " " + text;
      assert s[e..] == RenderTail(ts[1..]);
      if e < |s| {
        assert s[e] == RenderTail(ts[1..])[0];
      }
      ItemRender(s, j, ts[0]);
      assert Item(s, j) == Ok(ts[0], e);
      ManyRender(policy, s, e, ts[1..]);
      assert Many(policy, s, e) == Ok(ts[1..], |s|);
      ManyCons(policy, s, j, ts);
    }
  }

  /** Round trip: a name word followed by writable tokens, written with
      single spaces, parses to that word plus the name parts as the command
      name and the arguments in order, and the whole line is consumed. */
  lemma ParseRendered(policy: ManyPolicy, first: string, ts: seq<Token>)
    requires NameWord(first)
    requires forall k :: 0 <= k < |ts| ==> Writable(ts[k])
    ensures var s := first + RenderTail(ts);
      ExtractCommandAndArgs(policy, s, 0) == Ok(TaskLine(first + NameSuffix(ts), TokenArgs(ts)), |s|)
  {
    var s := first + RenderTail(ts);
    assert s[..|first|] == first;
    assert s[|first|..] == RenderTail(ts);
    if ts != [] {
      assert s[|first|] == ' ';
    }
    WordAt(s, 0, |first|);
    ManyRender(policy, s, |first|, ts);
  }

  lemma RenderTailCons(t: Token, ts: seq<Token>)
    ensures RenderTail([t] + ts) == " " + TokenText(t) + RenderTail(ts)
  {
    assert ([t] + ts)[1..] == ts;
  }

  lemma AddUserToGroupText(user: string, group: string)
    ensures "ADD" + (" " + "USER" + (" " + user + (" " + "TO" + (" " + "GROUP" + (" " + group + ""))))) ==
      "ADD USER " + user + " TO GROUP " + group
  {
  }

  /** "ADD USER <user> TO GROUP <group>" after "ADD", as tokens. */
  lemma AddUserToGroupRender(user: string, group: string, ts: seq<Token>)
    requires BareArgument(user) && BareArgument(group)
    requires ts == [NamePart("USER"), Argument(user), NamePart("TO"), NamePart("GROUP"), Argument(group)]
    ensures "ADD" + RenderTail(ts) == "ADD USER " + user + " TO GROUP " + group
  {
    var t0, t1, t2, t3, t4 := NamePart("USER"), Argument(user), NamePart("TO"), NamePart("GROUP"), Argument(group);
    assert ts == [t0] + ([t1] + ([t2] + ([t3] + ([t4] + []))));
    RenderTailCons(t4, []);
    RenderTailCons(t3, [t4] + []);
    RenderTailCons(t2, [t3] + ([t4] + []));
    RenderTailCons(t1, [t2] + ([t3] + ([t4] + [])));
    RenderTailCons(t0, [t1] + ([t2] + ([t3] + ([t4] + []))));
    assert TokenText(t1) == user && TokenText(t4) == group;
    AddUserToGroupText(user, group);
  }

  /** Those tokens fold into the name the registry knows ... */
  lemma AddUserToGroupName(user: string, group: string, ts: seq<Token>)
    requires ts == [NamePart("USER"), Argument(user), NamePart("TO"), NamePart("GROUP"), Argument(group)]
    ensures "ADD" + NameSuffix(ts) == "ADD USER TO GROUP"
  {
    assert ts[..4][..3] == ts[..3];
    assert ts[..3][..2] == ts[..2];
    assert ts[..2][..1] == ts[..1];
    assert ts[..1][..0] == [];
    assert NameSuffix(ts[..1]) == " USER";
    assert NameSuffix(ts[..2]) == " USER";
    assert NameSuffix(ts[..3]) == " USER TO";
    assert NameSuffix(ts[..4]) == " USER TO GROUP";
  }

  /** ... and the two arguments. */
  lemma AddUserToGroupArgs(user: string, group: string, ts: seq<Token>)
    requires ts == [NamePart("USER"), Argument(user), NamePart("TO"), NamePart("GROUP"), Argument(group)]
    ensures TokenArgs(ts) == [user, group]
  {
    assert ts[..4][..3] == ts[..3];
    assert ts[..3][..2] == ts[..2];
    assert ts[..2][..1] == ts[..1];
    assert ts[..1][..0] == [];
    assert TokenArgs(ts[..1]) == [];
    assert TokenArgs(ts[..2]) == [user];
    assert TokenArgs(ts[..3]) == [user];
    assert TokenArgs(ts[..4]) == [user];
  }

  /** "ADD USER <user> TO GROUP <group>", with bare user and group names:
      the uppercase words make the name the registry knows, the others the
      arguments in order. */
  lemma AddUserToGroupLine(policy: ManyPolicy, user: string, group: string)
    requires BareArgument(user) && BareArgument(group)
    ensures var s := "ADD USER " + user + " TO GROUP " + group;
      ExtractCommandAndArgs(policy, s, 0) == Ok(TaskLine("ADD USER TO GROUP", [user, group]), |s|)
  {
    var ts := [NamePart("USER"), Argument(user), NamePart("TO"), NamePart("GROUP"), Argument(group)];
    AddUserToGroupRender(user, group, ts);
    AddUserToGroupName(user, group, ts);
    AddUserToGroupArgs(user, group, ts);
    ParseRendered(policy, "ADD", ts);
  }

  lemma SendMessageText(user: string, message: string)
    ensures "SEND" + (" " + "MESSAGE" + (" " + user + (" " + ("\"" + message + "\"") + ""))) ==
      "SEND MESSAGE " + user + " \"" + message + "\""
  {
  }

  /** "SEND MESSAGE <user> "<message>"" after "SEND", as tokens. */
  lemma SendMessageRender(user: string, message: string, ts: seq<Token>)
    requires BareArgument(user) && !BareArgument(message)
    requires ts == [NamePart("MESSAGE"), Argument(user), Argument(message)]
    ensures "SEND" + RenderTail(ts) == "SEND MESSAGE " + user + " \"" + message + "\""
  {
    var t0, t1, t2 := NamePart("MESSAGE"), Argument(user), Argument(message);
    assert ts == [t0] + ([t1] + ([t2] + []));
    RenderTailCons(t2, []);
    RenderTailCons(t1, [t2] + []);
    RenderTailCons(t0, [t1] + ([t2] + []));
    assert TokenText(t1) == user && TokenText(t2) == "\"" + message + "\"";
    SendMessageText(user, message);
  }

  /** Those tokens fold into the registry's name and the two arguments. */
  lemma SendMessageFold(user: string, message: string, ts: seq<Token>)
    requires ts == [NamePart("MESSAGE"), Argument(user), Argument(message)]
    ensures "SEND" + NameSuffix(ts) == "SEND MESSAGE" && TokenArgs(ts) == [user, message]
  {
    assert ts[..2][..1] == ts[..1];
    assert ts[..1][..0] == [];
    assert NameSuffix(ts[..1]) == " MESSAGE" && TokenArgs(ts[..1]) == [];
    assert NameSuffix(ts[..2]) == " MESSAGE" && TokenArgs(ts[..2]) == [user];
  }

  /** "SEND MESSAGE <user> "<message>"": a quoted message is one argument,
      its spaces and punctuation kept. */
  lemma SendMessageLine(policy: ManyPolicy, user: string, message: string)
    requires BareArgument(user) && '"' !in message && !BareArgument(message)
    ensures var s := "SEND MESSAGE " + user + " \"" + message + "\"";
      ExtractCommandAndArgs(policy, s, 0) == Ok(TaskLine("SEND MESSAGE", [user, message]), |s|)
  {
    var ts := [NamePart("MESSAGE"), Argument(user), Argument(message)];
    SendMessageRender(user, message, ts);
    SendMessageFold(user, message, ts);
    ParseRendered(policy, "SEND", ts);
  }

  // ---------------------------------------------------------------------
  // CleanLine

  /** TasksParser::CleanLine: drop the leading spaces and tabs; a blank
      line or one that then starts with '#' is empty; otherwise cut at the
      first '#' (quotes do not protect it) and drop trailing spaces, tabs,
      carriage returns and newlines. */
  function CleanLine(line: string): (r: string)
    ensures '#' !in r
    ensures r == [] || (!IsBlank(r[0]) && !IsTrailing(r[|r| - 1]))
    ensures |r| <= |line|
  {
    var t := Unindent(line);
    if t == [] || t[0] == '#' then []
    else
      var u := CutComment(t);
      assert forall k :: 0 <= k < |u| ==> NotHash(u[k]);
      TrimEnd(u)
  }

  /** erase(0, find_first_not_of(" \t")). */
  function Unindent(line: string): string {
    line[RunEnd(IsBlank, line, 0)..]
  }

  /** substr(0, find('#')), the whole text when there is no '#'. */
  function CutComment(t: string): string {
    t[..RunEnd(NotHash, t, 0)]
  }

  /** erase(find_last_not_of(" \t\r\n") + 1). */
  function TrimEnd(u: string): string {
    u[..RunStart(IsTrailing, u, |u|)]
  }

  /** Cleaning a cleaned line changes nothing. */
  lemma CleanLineIdempotent(line: string)
    ensures CleanLine(CleanLine(line)) == CleanLine(line)
  {
    var r := CleanLine(line);
    if r != [] {
      RunEndAt(IsBlank, r, 0, 0);
      assert r[0..] == r;
      RunEndAt(NotHash, r, 0, |r|);
      assert r[..|r|] == r;
      assert RunStart(IsTrailing, r, |r|) == |r|;
    }
  }

  /** Whatever follows the first '#' never matters. */
  lemma CleanLineCutsAtHash(line: string)
    ensures CleanLine(line) == CleanLine(line[..RunEnd(NotHash, line, 0)])
  {
    var h := RunEnd(NotHash, line, 0);
    var a := RunEnd(IsBlank, line, 0);
    assert a <= h by {
      if h < |line| {
        assert !IsBlank(line[h]);
      }
    }
    if a < h {
      CutAtHashText(line, a, h);
    } else {
      CutAtHashBlank(line, h);
    }
  }

  /** Blanks up to the first '#' (or the end): both sides are empty. */
  lemma CutAtHashBlank(line: string, h: nat)
    requires h == RunEnd(NotHash, line, 0) == RunEnd(IsBlank, line, 0)
    ensures CleanLine(line) == [] == CleanLine(line[..h])
  {
    var l2 := line[..h];
    RunEndAt(IsBlank, l2, 0, h);
    assert l2[h..] == [];
    if h < |line| {
      assert line[h..][0] == line[h] == '#';
    } else {
      assert line[h..] == [];
    }
  }

  /** Text before the first '#': both sides keep the same text. */
  lemma CutAtHashText(line: string, a: nat, h: nat)
    requires a < h <= |line|
    requires (forall k :: 0 <= k < a ==> IsBlank(line[k])) && !IsBlank(line[a])
    requires (forall k :: 0 <= k < h ==> line[k] != '#') && (h == |line| || line[h] == '#')
    ensures CleanLine(line) == CleanLine(line[..h])
  {
    CleanLineAt(line, a, h);
    assert CleanLine(line[..h]) == TrimEnd(line[a..h]) by {
      var cut := line[..h];
      assert forall k :: 0 <= k < h ==> cut[k] == line[k];
      CleanLineAt(cut, a, h);
      assert cut[a..h] == line[a..h];
    }
  }

  /** A line indented by a blanks whose comment starts at h cleans to the
      text between, trimmed. */
  lemma CleanLineAt(line: string, a: nat, h: nat)
    requires a < h <= |line|
    requires (forall k :: 0 <= k < a ==> IsBlank(line[k])) && !IsBlank(line[a])
    requires (forall k :: 0 <= k < h ==> line[k] != '#') && (h == |line| || line[h] == '#')
    ensures CleanLine(line) == TrimEnd(line[a..h])
  {
    var t := Unindent(line);
    assert t == line[a..] by {
      RunEndAt(IsBlank, line, 0, a);
    }
    assert CutComment(t) == line[a..h] by {
      forall k | 0 <= k < h - a
        ensures t[k] != '#'
      {
        assert t[k] == line[a + k];
      }
      CutCommentAt(t, h - a);
      assert t[..h - a] == line[a..h];
    }
    assert t[0] == line[a];
  }

  /** The comment starts at the first '#'. */
  lemma CutCommentAt(t: string, e: nat)
    requires e <= |t| && (forall k :: 0 <= k < e ==> t[k] != '#') && (e == |t| || t[e] == '#')
    ensures CutComment(t) == t[..e]
  {
    RunEndAt(NotHash, t, 0, e);
  }

  /** A line of blanks, or blanks and then a comment, is empty. */
  lemma CommentLineIsEmpty(blanks: string, comment: string)
    requires forall k :: 0 <= k < |blanks| ==> IsBlank(blanks[k])
    ensures CleanLine(blanks) == []
    ensures CleanLine(blanks + "#" + comment) == []
  {
    RunEndAt(IsBlank, blanks, 0, |blanks|);
    RunEndAt(IsBlank, blanks + "#" + comment, 0, |blanks|);
  }

  /** A command after indentation, followed by padding and a comment (or
      by padding alone), is cleaned down to the command itself. */
  lemma CleanLineStrips(indent: string, body: string, pad: string, comment: string)
    requires forall k :: 0 <= k < |indent| ==> IsBlank(indent[k])
    requires body != [] && !IsBlank(body[0]) && body[0] != '#' && !IsTrailing(body[|body| - 1]) && '#' !in body
    requires forall k :: 0 <= k < |pad| ==> IsTrailing(pad[k]) && pad[k] != '#'
    ensures CleanLine(indent + body + pad + "#" + comment) == body
    ensures CleanLine(indent + body + pad) == body
  {
    CleanLineStripsTail(indent, body, pad, "#" + comment);
    CleanLineStripsTail(indent, body, pad, "");
    assert indent + body + pad + "" == indent + body + pad;
    assert indent + body + pad + ("#" + comment) == indent + body + pad + "#" + comment;
  }

  lemma CleanLineStripsTail(indent: string, body: string, pad: string, rest: string)
    requires forall k :: 0 <= k < |indent| ==> IsBlank(indent[k])
    requires body != [] && !IsBlank(body[0]) && body[0] != '#' && !IsTrailing(body[|body| - 1]) && '#' !in body
    requires forall k :: 0 <= k < |pad| ==> IsTrailing(pad[k]) && pad[k] != '#'
    requires rest == [] || rest[0] == '#'
    ensures CleanLine(indent + body + pad + rest) == body
  {
    var line := indent + body + pad + rest;
    assert line[|indent|] == body[0];
    RunEndAt(IsBlank, line, 0, |indent|);
    var t := line[|indent|..];
    assert t == body + pad + rest;
    assert t[0] == body[0];
    var e := |body| + |pad|;
    assert forall k :: 0 <= k < |body| ==> t[k] == body[k];
    assert forall k :: |body| <= k < e ==> t[k] == pad[k - |body|];
    if rest != [] {
      assert t[e] == '#';
    }
    RunEndAt(NotHash, t, 0, e);
    var u := t[..e];
    assert u == body + pad;
    assert u[|body| - 1] == body[|body| - 1];
    RunStartAt(IsTrailing, u, |body|, e);
    assert u[..|body|] == body;
  }

  // ---------------------------------------------------------------------
  // ParseTasks

  /** One non-empty cleaned line: a tokenizer failure is a
      CommandExecutionException, otherwise the registry builds the
      command. */
  function ParseLine(policy: ManyPolicy, table: map<string, Registry.Factory>, line: string): Result<Commands.Command> {
    match ExtractCommandAndArgs(policy, line, 0)
    case Err(e) => Failure(CommandExecution(ParseFailed(e)))
    case Ok(t, _) => Registry.Create(table, t.name, t.args)
  }

  /** What a line's outcome says about where it came from. Only the
      tokenizer raises a CommandExecutionException; an unknown name is an
      InvalidCommand for the name the tokenizer read; a built command is
      the registered factory's, from the line's arguments by position. */
  lemma ParseLineOutcomes(policy: ManyPolicy, table: map<string, Registry.Factory>, line: string)
    ensures var r := ParseLine(policy, table, line);
      var t := ExtractCommandAndArgs(policy, line, 0);
      && ((r.Failure? && r.error.CommandExecution?) <==> t.Err?)
      && (r.Failure? && r.error.InvalidCommand? <==> t.Ok? && t.value.name !in table)
      && (r.Failure? && r.error.InvalidCommand? ==> r.error.name == t.value.name)
      && (r.Success? ==> t.Ok? && t.value.name in table && Registry.FactoryOf(r.value) == table[t.value.name])
      && (r.Success? && !table[t.value.name].MakePing? ==> Registry.ArgsOf(r.value) == t.value.args)
  {
    var t := ExtractCommandAndArgs(policy, line, 0);
    if t.Ok? && t.value.name in table && ParseLine(policy, table, line).Success? {
      Registry.BuildByPosition(table[t.value.name], t.value.args);
    }
  }

  /** The commands of a file, one per non-empty cleaned line in order, or
      None as soon as one line fails. */
  function ParseFile(policy: ManyPolicy, table: map<string, Registry.Factory>, lines: seq<string>): Option<seq<Commands.Command>>
    decreases |lines|
  {
    if lines == [] then Some([])
    else
      var c := CleanLine(lines[0]);
      if c == [] then ParseFile(policy, table, lines[1..])
      else
        match ParseLine(policy, table, c)
        case Failure(_) => None
        case Success(cmd) =>
          match ParseFile(policy, table, lines[1..])
          case None => None
          case Some(cs) => Some([cmd] + cs)
  }

  /** ParsedTasks' one entry: the file's name and its commands. */
  datatype ParsedFile = ParsedFile(fileName: string, commands: seq<Commands.Command>)

  function Prepend(cs: seq<Commands.Command>, rest: Option<seq<Commands.Command>>): Option<seq<Commands.Command>> {
    match rest
    case None => None
    case Some(more) => Some(cs + more)
  }

  /** ParseFile from line i on, one line unfolded. */
  lemma ParseFileFrom(policy: ManyPolicy, table: map<string, Registry.Factory>, lines: seq<string>, i: nat)
    requires i < |lines|
    ensures CleanLine(lines[i]) == [] ==> ParseFile(policy, table, lines[i..]) == ParseFile(policy, table, lines[i + 1..])
    ensures CleanLine(lines[i]) != [] && ParseLine(policy, table, CleanLine(lines[i])).Failure? ==>
      ParseFile(policy, table, lines[i..]) == None
    ensures CleanLine(lines[i]) != [] && ParseLine(policy, table, CleanLine(lines[i])).Success? ==>
      ParseFile(policy, table, lines[i..]) == Prepend([ParseLine(policy, table, CleanLine(lines[i])).value], ParseFile(policy, table, lines[i + 1..]))
  {
    assert lines[i..][0] == lines[i];
    assert lines[i..][1..] == lines[i + 1..];
  }

  lemma PrependPrepend(cs: seq<Commands.Command>, cmd: Commands.Command, rest: Option<seq<Commands.Command>>)
    ensures Prepend(cs, Prepend([cmd], rest)) == Prepend(cs + [cmd], rest)
  {
    if rest.Some? {
      assert cs + ([cmd] + rest.value) == cs + [cmd] + rest.value;
    }
  }

  /** The try block of ParseTasks: tokenize the cleaned line (a failure is
      a CommandExecutionException) and have the registry build the
      command. */
  method CreateCommandFromLine(policy: ManyPolicy, registry: Registry.CommandRegistry, newLine: string)
    returns (command: Result<Commands.Command>)
    ensures command == ParseLine(policy, registry.table, newLine)
    ensures (command.Failure? && command.error.CommandExecution?) <==> ExtractCommandAndArgs(policy, newLine, 0).Err?
    ensures command.Success? ==> ExtractCommandAndArgs(policy, newLine, 0).value.name in registry.table
  {
    ParseLineOutcomes(policy, registry.table, newLine);
    var result := ExtractCommandAndArgs(policy, newLine, 0);
    if result.Err? {
      command := Failure(CommandExecution(ParseFailed(result.at)));
    } else {
      command := registry.CreateCommand(result.value.name, result.value.args);
    }
  }

  /** TasksParser::ParseTasks: clean each line, skip the empty ones, parse
      and build a command from each other one, and stop at the first
      failure; the file gets an entry only if no line failed. */
  method ParseTasks(policy: ManyPolicy, registry: Registry.CommandRegistry, fileName: string, rawTasks: seq<string>)
    returns (parsed: seq<ParsedFile>)
    ensures parsed == match ParseFile(policy, registry.table, rawTasks)
      case None => []
      case Some(cs) => [ParsedFile(fileName, cs)]
  {
    var commands := [];
    var taskHasError := false;
    var i := 0;
    ghost var whole := ParseFile(policy, registry.table, rawTasks);
    assert rawTasks[0..] == rawTasks;
    assert whole == Prepend([], whole) by {
      if whole.Some? {
        assert [] + whole.value == whole.value;
      }
    }
    while i < |rawTasks|
      invariant 0 <= i <= |rawTasks|
      invariant whole == Prepend(commands, ParseFile(policy, registry.table, rawTasks[i..]))
    {
      ParseFileFrom(policy, registry.table, rawTasks, i);
      var newLine := CleanLine(rawTasks[i]);
      if newLine == [] {
        i := i + 1;
        continue;
      }
      var command := CreateCommandFromLine(policy, registry, newLine);
      if command.Failure? {
        taskHasError := true;
        break;
      }
      PrependPrepend(commands, command.value, ParseFile(policy, registry.table, rawTasks[i + 1..]));
      commands := commands + [command.value];
      i := i + 1;
    }
    if !taskHasError {
      assert rawTasks[i..] == [];
      assert commands + [] == commands;
      parsed := [ParsedFile(fileName, commands)];
    } else {
      parsed := [];
    }
  }

  // ---------------------------------------------------------------------
  // Properties of ParseTasks

  /** The non-empty cleaned lines of a file, in order. */
  function CommandLines(lines: seq<string>): seq<string> {
    if lines == [] then []
    else (if CleanLine(lines[0]) == [] then [] else [CleanLine(lines[0])]) + CommandLines(lines[1..])
  }

  /** Skipping the empty cleaned lines first and then parsing the rest
      line by line gives the same result as ParseFile. */
  lemma {:induction false} ParseFileSkipsEmpty(policy: ManyPolicy, table: map<string, Registry.Factory>, lines: seq<string>)
    ensures ParseFile(policy, table, lines) == ParseEach(policy, table, CommandLines(lines))
    decreases |lines|
  {
    if lines != [] {
      ParseFileSkipsEmpty(policy, table, lines[1..]);
      var c := CleanLine(lines[0]);
      if c != [] {
        var cl := CommandLines(lines);
        assert cl == [c] + CommandLines(lines[1..]);
        assert cl[0] == c && cl[1..] == CommandLines(lines[1..]);
      } else {
        assert CommandLines(lines) == [] + CommandLines(lines[1..]) == CommandLines(lines[1..]);
      }
    }
  }

  /** Each line parsed in order; None at the first failure. */
  function ParseEach(policy: ManyPolicy, table: map<string, Registry.Factory>, cl: seq<string>): Option<seq<Commands.Command>> {
    if cl == [] then Some([])
    else
      match ParseLine(policy, table, cl[0])
      case Failure(_) => None
      case Success(cmd) => Prepend([cmd], ParseEach(policy, table, cl[1..]))
  }

  /** Lines parse together exactly when each of them parses, and then
      give one command per line, in order. */
  lemma {:induction false} ParseEachLines(policy: ManyPolicy, table: map<string, Registry.Factory>, cl: seq<string>)
    ensures ParseEach(policy, table, cl).Some? <==> forall k :: 0 <= k < |cl| ==> ParseLine(policy, table, cl[k]).Success?
    ensures ParseEach(policy, table, cl).Some? ==>
      |ParseEach(policy, table, cl).value| == |cl| &&
      forall k :: 0 <= k < |cl| ==> ParseEach(policy, table, cl).value[k] == ParseLine(policy, table, cl[k]).value
  {
    if cl != [] {
      ParseEachLines(policy, table, cl[1..]);
      assert forall k :: 1 <= k < |cl| ==> cl[k] == cl[1..][k - 1];
    }
  }

  /** A file parses exactly when each of its non-empty cleaned lines does,
      and then it has one command per such line, in order. */
  lemma ParseFileLines(policy: ManyPolicy, table: map<string, Registry.Factory>, lines: seq<string>)
    ensures var cl := CommandLines(lines);
      ParseFile(policy, table, lines).Some? <==> forall k :: 0 <= k < |cl| ==> ParseLine(policy, table, cl[k]).Success?
    ensures var cl := CommandLines(lines);
      ParseFile(policy, table, lines).Some? ==>
        |ParseFile(policy, table, lines).value| == |cl| &&
        forall k :: 0 <= k < |cl| ==> ParseFile(policy, table, lines).value[k] == ParseLine(policy, table, cl[k]).value
  {
    ParseFileSkipsEmpty(policy, table, lines);
    ParseEachLines(policy, table, CommandLines(lines));
  }

  /** A file whose lines are all blank or comments parses to no command,
      which the executor then reports as a success. */
  lemma {:induction false} CommentOnlyFile(policy: ManyPolicy, table: map<string, Registry.Factory>, lines: seq<string>)
    requires forall k :: 0 <= k < |lines| ==> CleanLine(lines[k]) == []
    ensures ParseFile(policy, table, lines) == Some([])
    decreases |lines|
  {
    if lines != [] {
      CommentOnlyFile(policy, table, lines[1..]);
    }
  }

  /** One line that does not parse (no uppercase first word, a name the
      registry does not know, the wrong number of arguments) makes the
      whole file fail, after any number of good lines. */
  lemma {:induction false} BadLineFailsFile(policy: ManyPolicy, table: map<string, Registry.Factory>, good: seq<string>, bad: string, rest: seq<string>)
    requires CleanLine(bad) != [] && ParseLine(policy, table, CleanLine(bad)).Failure?
    ensures ParseFile(policy, table, good + [bad] + rest) == None
    decreases |good|
  {
    if good == [] {
      assert ([bad] + rest)[1..] == rest;
      assert good + [bad] + rest == [bad] + rest;
    } else {
      BadLineFailsFile(policy, table, good[1..], bad, rest);
      assert (good + [bad] + rest)[1..] == good[1..] + [bad] + rest;
    }
  }
}
