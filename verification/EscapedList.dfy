/** escaped_list_separator and the token_iterator that drives it: one field per call, and whole
    runs against a recursive decoder. */
module EscapedList {

  datatype ListError = EndsWithEscape | UnknownEscape

  /** The outcome of one call of a tokenizer function. */
  datatype Step = Token(tok: string) | NoMore | Thrown(error: ListError)

  /** The tokens of a whole run, and the exception that cut it short, if any. */
  datatype Run = Complete(tokens: seq<string>) | Aborted(tokens: seq<string>, error: ListError)

  function Prepend(tok: string, run: Run): Run {
    run.(tokens := [tok] + run.tokens)
  }

  function Append(tokens: seq<string>, run: Run): Run {
    run.(tokens := tokens + run.tokens)
  }

  lemma AppendPrepend(tokens: seq<string>, tok: string, run: Run)
    ensures Append(tokens, Prepend(tok, run)) == Append(tokens + [tok], run)
  {
    assert tokens + ([tok] + run.tokens) == (tokens + [tok]) + run.tokens;
  }

  lemma AppendEnds(tokens: seq<string>, run: Run)
    ensures Append([], run) == run && Append(tokens, Complete([])) == Complete(tokens)
  {
    assert [] + run.tokens == run.tokens;
    assert tokens + [] == tokens;
  }

  /** The characters with a meaning: any of each string plays the part. */
  datatype Syntax = Syntax(escape: string, c: string, quote: string) {
    predicate Special(ch: char) {
      ch in escape || ch in c || ch in quote
    }
  }

  // ----- the recursive decoder -----

  /** What an escape sequence stands for; `s` starts behind the escape character. */
  function Unescape(x: Syntax, s: string): (r: Step)
    ensures r.Token? ==> s != []
    ensures !r.NoMore?
  {
    if s == [] then Thrown(EndsWithEscape)
    else if s[0] == 'n' then Token("\n")
    else if x.Special(s[0]) then Token([s[0]])
    else Thrown(UnknownEscape)
  }

  /** All fields of s, given whether it starts inside quotes and what the current field holds. */
  function Decode(x: Syntax, s: string, inQuote: bool, field: string): Run
    decreases |s|
  {
    if s == [] then Complete([field])
    else if s[0] in x.escape then
      var e := Unescape(x, s[1..]);
      if e.Thrown? then Aborted([], e.error) else Decode(x, s[2..], inQuote, field + e.tok)
    else if s[0] in x.c && !inQuote then Prepend(field, Decode(x, s[1..], false, ""))
    else if s[0] in x.quote && s[0] !in x.c then Decode(x, s[1..], !inQuote, field)
    else Decode(x, s[1..], inQuote, field + [s[0]])
  }

  // ----- one call -----

  /** One field: its text, what is left, and whether a separator ended it; or what is left behind
      the escape character of a sequence that stands for nothing. */
  datatype Scanned = Field(text: string, rest: string, separated: bool) | Failed(error: ListError, rest: string)

  function Scan(x: Syntax, s: string, inQuote: bool, field: string): (r: Scanned)
    ensures r.Field? ==> |r.rest| <= |s| && (s != [] ==> |r.rest| < |s|) && r.rest == s[|s| - |r.rest|..]
    ensures r.Field? && !r.separated ==> r.rest == []
    decreases |s|
  {
    if s == [] then Field(field, [], false)
    else if s[0] in x.escape then
      var e := Unescape(x, s[1..]);
      if e.Thrown? then Failed(e.error, s[1..]) else Scan(x, s[2..], inQuote, field + e.tok)
    else if s[0] in x.c then
      if !inQuote then Field(field, s[1..], true) else Scan(x, s[1..], inQuote, field + [s[0]])
    else if s[0] in x.quote then Scan(x, s[1..], !inQuote, field)
    else Scan(x, s[1..], inQuote, field + [s[0]])
  }

  /** The tokens still to come when s is left and `last` says a separator has just been passed. */
  function RunFrom(x: Syntax, s: string, last: bool): Run
    decreases |s|
  {
    if s == [] then (if last then Complete([""]) else Complete([]))
    else
      match Scan(x, s, false, "")
      case Field(text, rest, separated) => Prepend(text, RunFrom(x, rest, separated))
      case Failed(error, _) => Aborted([], error)
  }

  lemma {:induction false} DecodeByFields(x: Syntax, s: string, inQuote: bool, field: string)
    ensures Decode(x, s, inQuote, field) ==
      match Scan(x, s, inQuote, field)
      case Field(text, rest, separated) =>
        (if separated then Prepend(text, Decode(x, rest, false, "")) else Complete([text]))
      case Failed(error, _) => Aborted([], error)
    decreases |s|
  {
    if s != [] {
      if s[0] in x.escape {
        var e := Unescape(x, s[1..]);
        if e.Token? { DecodeByFields(x, s[2..], inQuote, field + e.tok); }
      } else if s[0] in x.c {
        if inQuote { DecodeByFields(x, s[1..], inQuote, field + [s[0]]); }
      } else if s[0] in x.quote {
        DecodeByFields(x, s[1..], !inQuote, field);
      } else {
        DecodeByFields(x, s[1..], inQuote, field + [s[0]]);
      }
    }
  }

  /** Field-by-field calls yield exactly the decoded fields: behind a separator always, and at the
      start unless there is nothing to read. */
  lemma {:induction false} RunIsDecode(x: Syntax, s: string, last: bool)
    requires s != [] || last
    ensures RunFrom(x, s, last) == Decode(x, s, false, "")
    decreases |s|
  {
    if s != [] {
      DecodeByFields(x, s, false, "");
      var r := Scan(x, s, false, "");
      if r.Field? && r.separated { RunIsDecode(x, r.rest, true); }
    }
  }

  /** One character of a scan, by positions of the whole input. */
  lemma ScanAt(x: Syntax, s: string, i: nat, inQuote: bool, field: string)
    requires i < |s|
    ensures Scan(x, s[i..], inQuote, field) ==
      if s[i] in x.escape then
        var e := Unescape(x, s[i + 1..]);
        if e.Thrown? then Failed(e.error, s[i + 1..]) else Scan(x, s[i + 2..], inQuote, field + e.tok)
      else if s[i] in x.c then
        if !inQuote then Field(field, s[i + 1..], true) else Scan(x, s[i + 1..], inQuote, field + [s[i]])
      else if s[i] in x.quote then Scan(x, s[i + 1..], !inQuote, field)
      else Scan(x, s[i + 1..], inQuote, field + [s[i]])
  {
    assert s[i..][1..] == s[i + 1..];
    if i + 1 < |s| { assert s[i..][2..] == s[i + 2..]; }
  }

  lemma ScanEnd(x: Syntax, inQuote: bool, field: string)
    ensures Scan(x, [], inQuote, field) == Field(field, [], false)
  {
  }

  // ----- which inputs throw -----

  /** How many escape characters stand directly before position i. */
  function EscapesBefore(x: Syntax, s: string, i: nat): (k: nat)
    requires i <= |s|
    ensures k <= i && (forall j :: i - k <= j < i ==> s[j] in x.escape)
    ensures k < i ==> s[i - k - 1] !in x.escape
  {
    if i == 0 || s[i - 1] !in x.escape then 0 else 1 + EscapesBefore(x, s, i - 1)
  }

  /** An escape character at i that is not escaped itself, at the end of the input or before a
      character that is neither `n` nor special. */
  predicate BadEscape(x: Syntax, s: string, i: nat) {
    i < |s| && s[i] in x.escape && EscapesBefore(x, s, i) % 2 == 0
    && (i + 1 == |s| || (s[i + 1] != 'n' && s[i + 1] !in x.escape && s[i + 1] !in x.c && s[i + 1] !in x.quote))
  }

  /** The first of them, which decides the exception. */
  ghost predicate FirstBadEscape(x: Syntax, s: string, i: nat) {
    BadEscape(x, s, i) && forall j :: 0 <= j < i ==> !BadEscape(x, s, j)
  }

  /** Where the character or escape sequence at the front of s ends. */
  function Front(x: Syntax, s: string): nat {
    if s != [] && s[0] in x.escape then 2 else 1
  }

  lemma {:induction false} EscapesBehind(x: Syntax, s: string, i: nat)
    requires Front(x, s) <= i <= |s|
    ensures EscapesBefore(x, s, i) % 2 == EscapesBefore(x, s[Front(x, s)..], i - Front(x, s)) % 2
  {
    var k := Front(x, s);
    if i > k {
      assert s[k..][i - k - 1] == s[i - 1];
      EscapesBehind(x, s, i - 1);
    } else if k == 2 {
      assert EscapesBefore(x, s, 1) == 1 + EscapesBefore(x, s, 0);
    }
  }

  /** Nothing inside the front opens an escape sequence, and behind it the front does not matter. */
  lemma BadEscapeBehind(x: Syntax, s: string, i: nat)
    requires s != [] && !BadEscape(x, s, 0)
    ensures Front(x, s) <= |s|
    ensures BadEscape(x, s, i) <==> i >= Front(x, s) && BadEscape(x, s[Front(x, s)..], i - Front(x, s))
  {
    var k := Front(x, s);
    assert EscapesBefore(x, s, 0) == 0;
    if k <= i <= |s| {
      EscapesBehind(x, s, i);
    } else if i == 1 {
      assert EscapesBefore(x, s, 1) == 1 + EscapesBefore(x, s, 0);
    }
  }

  /** Decoding throws exactly on inputs with a bad escape, and the first one says which exception. */
  ghost predicate Judged(x: Syntax, s: string, run: Run) {
    match run
    case Complete(_) => forall i: nat :: !BadEscape(x, s, i)
    case Aborted(_, error) =>
      exists i: nat :: FirstBadEscape(x, s, i) && error == if i + 1 == |s| then EndsWithEscape else UnknownEscape
  }

  lemma JudgedBehind(x: Syntax, s: string, run: Run)
    requires s != [] && !BadEscape(x, s, 0) && Front(x, s) <= |s| && Judged(x, s[Front(x, s)..], run)
    ensures Judged(x, s, run)
  {
    var k := Front(x, s);
    forall i: nat ensures BadEscape(x, s, i) <==> i >= k && BadEscape(x, s[k..], i - k) {
      BadEscapeBehind(x, s, i);
    }
    if run.Aborted? {
      var i: nat :| FirstBadEscape(x, s[k..], i) && run.error == if i + 1 == |s[k..]| then EndsWithEscape else UnknownEscape;
      FirstBadBehind(x, s, i);
    }
  }

  lemma FirstBadBehind(x: Syntax, s: string, i: nat)
    requires s != [] && !BadEscape(x, s, 0) && Front(x, s) <= |s| && FirstBadEscape(x, s[Front(x, s)..], i)
    ensures FirstBadEscape(x, s, i + Front(x, s))
  {
    hide BadEscape;
    forall j: nat ensures BadEscape(x, s, j) <==> j >= Front(x, s) && BadEscape(x, s[Front(x, s)..], j - Front(x, s)) {
      BadEscapeBehind(x, s, j);
    }
  }

  lemma {:induction false} DecodeJudged(x: Syntax, s: string, inQuote: bool, field: string)
    ensures Judged(x, s, Decode(x, s, inQuote, field))
    decreases |s|
  {
    if s == [] {
    } else if BadEscape(x, s, 0) {
      assert FirstBadEscape(x, s, 0);
    } else {
      var rest := s[Front(x, s)..];
      BadEscapeBehind(x, s, 0);
      if s[0] in x.escape {
        DecodeJudged(x, rest, inQuote, field + Unescape(x, s[1..]).tok);
        JudgedBehind(x, s, Decode(x, rest, inQuote, field + Unescape(x, s[1..]).tok));
      } else if s[0] in x.c && !inQuote {
        DecodeJudged(x, rest, false, "");
        JudgedBehind(x, s, Decode(x, rest, false, ""));
      } else if s[0] in x.quote && s[0] !in x.c {
        DecodeJudged(x, rest, !inQuote, field);
        JudgedBehind(x, s, Decode(x, rest, !inQuote, field));
      } else {
        DecodeJudged(x, rest, inQuote, field + [s[0]]);
        JudgedBehind(x, s, Decode(x, rest, inQuote, field + [s[0]]));
      }
    }
  }

  /** A field that cannot be read stops behind the first bad escape character. */
  ghost predicate FailsThere(x: Syntax, s: string, r: Scanned) {
    r.Failed? ==> exists i: nat :: FirstBadEscape(x, s, i) && r.rest == s[i + 1..]
  }

  lemma FailsBehind(x: Syntax, s: string, r: Scanned)
    requires s != [] && !BadEscape(x, s, 0) && Front(x, s) <= |s| && FailsThere(x, s[Front(x, s)..], r)
    ensures FailsThere(x, s, r)
  {
    if r.Failed? {
      var k := Front(x, s);
      var i: nat :| FirstBadEscape(x, s[k..], i) && r.rest == s[k..][i + 1..];
      FirstBadBehind(x, s, i);
      assert s[k..][i + 1..] == s[i + k + 1..];
    }
  }

  lemma {:induction false} ScanFails(x: Syntax, s: string, inQuote: bool, field: string)
    ensures FailsThere(x, s, Scan(x, s, inQuote, field))
    decreases |s|
  {
    if s == [] {
    } else if BadEscape(x, s, 0) {
      assert FirstBadEscape(x, s, 0);
    } else {
      var rest := s[Front(x, s)..];
      BadEscapeBehind(x, s, 0);
      if s[0] in x.escape {
        ScanFails(x, rest, inQuote, field + Unescape(x, s[1..]).tok);
        FailsBehind(x, s, Scan(x, rest, inQuote, field + Unescape(x, s[1..]).tok));
      } else if s[0] in x.c {
        if inQuote {
          ScanFails(x, rest, inQuote, field + [s[0]]);
          FailsBehind(x, s, Scan(x, rest, inQuote, field + [s[0]]));
        }
      } else if s[0] in x.quote {
        ScanFails(x, rest, !inQuote, field);
        FailsBehind(x, s, Scan(x, rest, !inQuote, field));
      } else {
        ScanFails(x, rest, inQuote, field + [s[0]]);
        FailsBehind(x, s, Scan(x, rest, inQuote, field + [s[0]]));
      }
    }
  }

  lemma ThrowsOnBadEscape(x: Syntax, s: string)
    ensures RunFrom(x, s, false).Aborted? <==> exists i: nat :: BadEscape(x, s, i)
    ensures forall i: nat :: FirstBadEscape(x, s, i) && RunFrom(x, s, false).Aborted? ==>
      RunFrom(x, s, false).error == if i + 1 == |s| then EndsWithEscape else UnknownEscape
  {
    hide Decode, RunFrom, BadEscape;
    if s == [] {
      NothingToDecode(x);
    } else {
      RunIsDecode(x, s, false);
      DecodeJudged(x, s, false, "");
      if RunFrom(x, s, false).Aborted? {
        var i: nat :| FirstBadEscape(x, s, i)
          && RunFrom(x, s, false).error == if i + 1 == |s| then EndsWithEscape else UnknownEscape;
        assert forall j: nat :: FirstBadEscape(x, s, j) ==> !(i < j) && !(j < i);
      }
    }
  }

  /** An input throws if and only if an escape character, not escaped itself, ends it or stands before
      a character that is neither `n` nor in one of the three strings, quoted or not. */
  lemma ThrowsIff(x: Syntax, s: string)
    ensures RunFrom(x, s, false).Aborted? ==>
      exists i: nat :: i < |s| && s[i] in x.escape && EscapesBefore(x, s, i) % 2 == 0
        && (i + 1 == |s| || (s[i + 1] != 'n' && s[i + 1] !in x.escape && s[i + 1] !in x.c && s[i + 1] !in x.quote))
    ensures RunFrom(x, s, false).Complete? ==>
      forall i: nat :: i < |s| && s[i] in x.escape && EscapesBefore(x, s, i) % 2 == 0
        ==> i + 1 < |s| && (s[i + 1] == 'n' || s[i + 1] in x.escape || s[i + 1] in x.c || s[i + 1] in x.quote)
    ensures forall i: nat :: FirstBadEscape(x, s, i) && RunFrom(x, s, false).Aborted? ==>
      RunFrom(x, s, false).error == if i + 1 == |s| then EndsWithEscape else UnknownEscape
  {
    hide RunFrom;
    ThrowsOnBadEscape(x, s);
    if RunFrom(x, s, false).Aborted? {
      var i: nat :| BadEscape(x, s, i);
      assert i < |s| && s[i] in x.escape && EscapesBefore(x, s, i) % 2 == 0
        && (i + 1 == |s| || (s[i + 1] != 'n' && s[i + 1] !in x.escape && s[i + 1] !in x.c && s[i + 1] !in x.quote));
    } else {
      forall i: nat | i < |s| && s[i] in x.escape && EscapesBefore(x, s, i) % 2 == 0
        ensures i + 1 < |s| && (s[i + 1] == 'n' || s[i + 1] in x.escape || s[i + 1] in x.c || s[i + 1] in x.quote)
      {
        assert !BadEscape(x, s, i);
      }
    }
  }

  lemma NothingToDecode(x: Syntax)
    ensures RunFrom(x, [], false) == Complete([]) && forall i: nat :: !BadEscape(x, [], i)
  {
  }

  // ----- the tokenizer function -----

  class EscapedListSeparator {
    const x: Syntax
    var last: bool

    constructor (x: Syntax)
      ensures this.x == x && !last
    {
      this.x := x;
      last := false;
    }

    method Reset()
      modifies this
      ensures !last
    {
      last := false;
    }

    /** `do_escape`, from the escape character at `next` to the character it stands for. */
    method DoEscape(input: string, next: nat, tok: string) returns (next': nat, step: Step)
      requires next < |input|
      ensures next' == next + 1 <= |input|
      ensures next' == |input| ==> step == Thrown(EndsWithEscape)
      ensures next' < |input| && input[next'] == 'n' ==> step == Token(tok + "\n")
      ensures next' < |input| && input[next'] != 'n' ==>
        step == if input[next'] in x.escape || input[next'] in x.c || input[next'] in x.quote
                then Token(tok + [input[next']]) else Thrown(UnknownEscape)
      ensures match Unescape(x, input[next + 1..])
              case Token(t) => next' == next + 1 < |input| && step == Token(tok + t)
              case Thrown(e) => next' == next + 1 && step == Thrown(e)
              case NoMore => false
    {
      next' := next + 1;
      if next' == |input| {
        return next', Thrown(EndsWithEscape);
      }
      if input[next'] == 'n' {
        step := Token(tok + "\n");
      } else if input[next'] in x.quote {
        step := Token(tok + [input[next']]);
      } else if input[next'] in x.c {
        step := Token(tok + [input[next']]);
      } else if input[next'] in x.escape {
        step := Token(tok + [input[next']]);
      } else {
        step := Thrown(UnknownEscape);
      }
    }

    /** `operator()`: one field, or nothing, or an exception. */
    method Call(input: string, begin: nat) returns (next: nat, step: Step)
      requires begin <= |input|
      modifies this
      ensures begin <= next <= |input|
      ensures begin == |input| ==> next == begin && !last && step == (if old(last) then Token("") else NoMore)
      ensures begin < |input| ==>
        match Scan(x, input[begin..], false, "")
        case Field(text, rest, separated) => step == Token(text) && last == separated && input[next..] == rest
        case Failed(error, rest) => step == Thrown(error) && !last && input[next..] == rest
    {
      hide Unescape, Decode, RunFrom, Scan;
      var bInQuote := false;
      var tok := "";
      next := begin;
      if next == |input| {
        if last {
          last := false;
          return next, Token(tok);
        } else {
          return next, NoMore;
        }
      }
      last := false;
      ghost var whole := Scan(x, input[begin..], false, "");
      while next != |input|
        invariant begin <= next <= |input| && !last
        invariant whole == Scan(x, input[next..], bInQuote, tok)
        decreases |input| - next
      {
        var ch := input[next];
        ScanAt(x, input, next, bInQuote, tok);
        if ch in x.escape {
          next, step := DoEscape(input, next, tok);
          if step.Thrown? {
            return;
          }
          tok := step.tok;
        } else if ch in x.c {
          if !bInQuote {
            next := next + 1;
            last := true;
            return next, Token(tok);
          } else {
            tok := tok + [ch];
          }
        } else if ch in x.quote {
          bInQuote := !bInQuote;
        } else {
          tok := tok + [ch];
        }
        next := next + 1;
      }
      ScanEnd(x, bInQuote, tok);
      return next, Token(tok);
    }
  }

  // ----- the iterator -----

  class EscapedTokenIterator {
    const f: EscapedListSeparator
    const input: string
    var begin: nat
    var valid: bool
    var tok: string

    ghost predicate Valid()
      reads this, f
    {
      begin <= |input|
    }

    /** The tokens from the current one on. */
    ghost function Rest(): Run
      reads this, f
      requires Valid()
    {
      if valid then Prepend(tok, RunFrom(f.x, input[begin..], f.last)) else Complete([])
    }

    /** Copies the tokenizer function and reads the first token; an exception leaves no iterator. */
    constructor (x: Syntax, input: string)
      ensures Valid() && fresh(f) && this.input == input && begin == 0 && !valid && f.x == x && !f.last
    {
      f := new EscapedListSeparator(x);
      this.input := input;
      begin, valid, tok := 0, false, "";
    }

    /** `initialize`; Thrown stands for the exception. */
    method Initialize() returns (step: Step)
      requires Valid() && !valid && begin == 0
      modifies this, f
      ensures !step.Thrown? ==> Valid() && Rest() == if input == [] then Complete([]) else Decode(f.x, input, false, "")
      ensures step.Thrown? ==> input != [] && Decode(f.x, input, false, "") == Aborted([], step.error)
    {
      f.Reset();
      if begin != |input| {
        assert input[0..] == input;
        RunIsDecode(f.x, input, false);
        begin, step := f.Call(input, begin);
        valid := step.Token?;
        tok := if step.Token? then step.tok else "";
      } else {
        valid := false;
        step := NoMore;
      }
    }

    /** `increment`; Thrown stands for the exception. */
    method Increment() returns (step: Step)
      requires Valid() && valid
      modifies this, f
      ensures !step.Thrown? ==> Valid() && old(Rest()) == Prepend(old(tok), Rest())
      ensures step.Thrown? ==> old(Rest()) == Aborted([old(tok)], step.error)
      ensures begin >= old(begin)
      ensures begin == old(begin) && !step.Thrown? ==> !f.last && (old(f.last) || !valid)
    {
      begin, step := f.Call(input, begin);
      valid := step.Token?;
      tok := if step.Token? then step.tok else "";
    }
  }

  /** A loop over all tokens of an input. */
  method AllTokens(x: Syntax, input: string) returns (run: Run)
    ensures run == if input == [] then Complete([]) else Decode(x, input, false, "")
  {
    var it := new EscapedTokenIterator(x, input);
    var step := it.Initialize();
    if step.Thrown? {
      return Aborted([], step.error);
    }
    var tokens: seq<string> := [];
    ghost var whole := it.Rest();
    AppendEnds(tokens, whole);
    while it.valid
      invariant it.Valid() && fresh(it) && fresh(it.f)
      invariant whole == Append(tokens, it.Rest())
      decreases |it.input| - it.begin, it.f.last, it.valid
    {
      ghost var before, passed := it.Rest(), it.tok;
      tokens := tokens + [it.tok];
      step := it.Increment();
      if step.Thrown? {
        return Aborted(tokens, step.error);
      }
      AppendPrepend(tokens[..|tokens| - 1], passed, it.Rest());
      assert tokens[..|tokens| - 1] + [passed] == tokens;
    }
    AppendEnds(tokens, it.Rest());
    return Complete(tokens);
  }

  // ----- encoding, the inverse -----

  /** Escapes whatever has a meaning, and newlines. */
  function EncodeChar(x: Syntax, ch: char): string
    requires x.escape != []
  {
    if ch == '\n' then [x.escape[0], 'n']
    else if x.Special(ch) then [x.escape[0], ch]
    else [ch]
  }

  function EncodeField(x: Syntax, field: string): string
    requires x.escape != []
  {
    if field == [] then [] else EncodeChar(x, field[0]) + EncodeField(x, field[1..])
  }

  /** The escaped fields, joined by separators. */
  function Encode(x: Syntax, fields: seq<string>): string
    requires x.escape != [] && x.c != []
  {
    if fields == [] then []
    else if |fields| == 1 then EncodeField(x, fields[0])
    else EncodeField(x, fields[0]) + ([x.c[0]] + Encode(x, fields[1..]))
  }

  lemma DecodeEncodedChar(x: Syntax, ch: char, rest: string, inQuote: bool, field: string)
    requires x.escape != [] && !x.Special('n')
    ensures Decode(x, EncodeChar(x, ch) + rest, inQuote, field) == Decode(x, rest, inQuote, field + [ch])
  {
    if ch == '\n' {
      DecodeEscape(x, x.escape[0], 'n', rest, inQuote, field);
    } else if x.Special(ch) {
      DecodeEscape(x, x.escape[0], ch, rest, inQuote, field);
    } else {
      assert ([ch] + rest)[1..] == rest;
    }
  }

  /** An escaped text means the text, inside quotes and outside. */
  lemma {:induction false} DecodeEncodedField(x: Syntax, text: string, rest: string, inQuote: bool, field: string)
    requires x.escape != [] && !x.Special('n')
    ensures Decode(x, EncodeField(x, text) + rest, inQuote, field) == Decode(x, rest, inQuote, field + text)
    decreases |text|
  {
    if text == [] {
      assert EncodeField(x, text) + rest == rest;
      assert field + text == field;
    } else {
      var tail := EncodeField(x, text[1..]) + rest;
      assert EncodeField(x, text) + rest == EncodeChar(x, text[0]) + tail;
      DecodeEncodedChar(x, text[0], tail, inQuote, field);
      DecodeEncodedField(x, text[1..], rest, inQuote, field + [text[0]]);
      assert (field + [text[0]]) + text[1..] == field + text;
    }
  }

  /** What an escape sequence means, inside quotes and outside, and that none may be cut short. */
  lemma DecodeEscape(x: Syntax, e: char, ch: char, rest: string, inQuote: bool, field: string)
    requires e in x.escape
    ensures Decode(x, [e, ch] + rest, inQuote, field) ==
      if ch == 'n' then Decode(x, rest, inQuote, field + "\n")
      else if ch in x.escape || ch in x.c || ch in x.quote then Decode(x, rest, inQuote, field + [ch])
      else Aborted([], UnknownEscape)
    ensures Decode(x, [e], inQuote, field) == Aborted([], EndsWithEscape)
    ensures Decode(x, "", inQuote, field) == Complete([field])
  {
    var s := [e, ch] + rest;
    assert s[1..][0] == ch && s[2..] == rest;
    assert [e][1..] == "";
  }

  /** Outside quotes a separator ends the field. */
  lemma DecodeSeparator(x: Syntax, ch: char, rest: string, field: string)
    requires ch in x.c && ch !in x.escape
    ensures Decode(x, [ch] + rest, false, field) == Prepend(field, Decode(x, rest, false, ""))
  {
    assert ([ch] + rest)[1..] == rest;
  }

  /** Text without escapes means itself: outside quotes, when it has no separators or quotes; inside
      them, when its only quote characters are separators too, which separate nothing there. */
  lemma {:induction false} Verbatim(x: Syntax, text: string, rest: string, inQuote: bool, field: string)
    requires forall ch :: ch in text ==> ch !in x.escape
    requires forall ch :: ch in text ==> if inQuote then ch in x.quote ==> ch in x.c else ch !in x.c && ch !in x.quote
    ensures Decode(x, text + rest, inQuote, field) == Decode(x, rest, inQuote, field + text)
    decreases |text|
  {
    if text == [] {
      assert text + rest == rest && field + text == field;
    } else {
      assert (text + rest)[0] == text[0] && (text + rest)[1..] == text[1..] + rest;
      assert text[0] in text;
      Verbatim(x, text[1..], rest, inQuote, field + [text[0]]);
      assert (field + [text[0]]) + text[1..] == field + text;
    }
  }

  lemma DecodeQuote(x: Syntax, q: char, rest: string, inQuote: bool, field: string)
    requires q in x.quote && q !in x.escape && q !in x.c
    ensures Decode(x, [q] + rest, inQuote, field) == Decode(x, rest, !inQuote, field)
  {
    assert ([q] + rest)[1..] == rest;
  }

  /** A quoted text means the text, separators included, and the quotes are gone; a quote that is
      never closed quotes the rest of the input. */
  lemma QuotedVerbatim(x: Syntax, q: char, q': char, text: string, rest: string, field: string)
    requires q in x.quote && q !in x.escape && q !in x.c && q' in x.quote && q' !in x.escape && q' !in x.c
    requires forall ch :: ch in text ==> ch !in x.escape && (ch in x.quote ==> ch in x.c)
    ensures Decode(x, [q] + text + [q'] + rest, false, field) == Decode(x, rest, false, field + text)
    ensures Decode(x, [q] + text, false, field) == Complete([field + text])
  {
    assert [q] + text + [q'] + rest == [q] + (text + ([q'] + rest));
    DecodeQuote(x, q, text + ([q'] + rest), false, field);
    Verbatim(x, text, [q'] + rest, true, field);
    DecodeQuote(x, q', rest, true, field + text);
    DecodeQuote(x, q, text, false, field);
    Verbatim(x, text, "", true, field);
    assert text + "" == text;
  }

  /** Decoding an encoded list gives the list back, empty fields included. */
  lemma {:induction false} DecodeEncode(x: Syntax, fields: seq<string>)
    requires x.escape != [] && x.c != [] && x.c[0] !in x.escape && !x.Special('n') && fields != []
    ensures Decode(x, Encode(x, fields), false, "") == Complete(fields)
    decreases |fields|
  {
    var text := fields[0];
    assert "" + text == text;
    if |fields| == 1 {
      DecodeEncodedField(x, text, "", false, "");
      assert EncodeField(x, text) + "" == EncodeField(x, text);
      assert fields == [text];
    } else {
      DecodeEncodedField(x, text, [x.c[0]] + Encode(x, fields[1..]), false, "");
      DecodeSeparator(x, x.c[0], Encode(x, fields[1..]), text);
      DecodeEncode(x, fields[1..]);
      assert fields == [text] + fields[1..];
    }
  }

  /** Iterating over the encoding of any fields gives them back; an empty encoding has no tokens. */
  ghost predicate RoundTrips(x: Syntax)
    requires x.escape != [] && x.c != []
  {
    forall fields :: Encode(x, fields) != [] ==> RunFrom(x, Encode(x, fields), false) == Complete(fields)
  }

  /** Every field list with a nonempty encoding survives exactly when the separator is no escape
      character and 'n' has no meaning of its own. */
  lemma RoundTripsIff(x: Syntax)
    requires x.escape != [] && x.c != []
    ensures RoundTrips(x) <==> x.c[0] !in x.escape && 'n' !in x.escape && 'n' !in x.c && 'n' !in x.quote
  {
    if x.c[0] !in x.escape && !x.Special('n') {
      forall fields | Encode(x, fields) != [] ensures RunFrom(x, Encode(x, fields), false) == Complete(fields) {
        DecodeEncode(x, fields);
        RunIsDecode(x, Encode(x, fields), false);
      }
    } else if x.c[0] in x.escape {
      SeparatorLost(x);
    } else {
      LetterLost(x);
    }
  }

  lemma SeparatorLost(x: Syntax)
    requires x.escape != [] && x.c != [] && x.c[0] in x.escape
    ensures !RoundTrips(x)
  {
    var fields := ["", ""];
    assert fields[1..] == [""];
    assert EncodeField(x, "") == "";
    assert EncodeField(x, fields[0]) == EncodeField(x, fields[1]) == "";
    assert Encode(x, [""]) == "";
    var s := Encode(x, fields);
    assert s == [] + ([x.c[0]] + Encode(x, [""]));
    assert s == [x.c[0]];
    RunIsDecode(x, s, false);
    assert s[1..] == [];
    assert Decode(x, s, false, "") == Aborted([], EndsWithEscape);
    assert RunFrom(x, Encode(x, fields), false) != Complete(fields);
  }

  lemma LetterLost(x: Syntax)
    requires x.escape != [] && x.c != [] && x.Special('n')
    ensures !RoundTrips(x)
  {
    var fields := ["n"];
    var s := Encode(x, fields);
    assert "n"[1..] == "";
    assert EncodeField(x, "n") == EncodeChar(x, 'n') + EncodeField(x, "");
    assert s == [x.escape[0], 'n'];
    RunIsDecode(x, s, false);
    assert s[1..] == ['n'] && s[2..] == [];
    assert Decode(x, s, false, "") == Decode(x, s[2..], false, "" + "\n");
    assert RunFrom(x, s, false).tokens == ["" + "\n"];
    assert fields[0][0] == 'n' && ("" + "\n")[0] != 'n';
    assert RunFrom(x, Encode(x, fields), false) != Complete(fields);
  }
}
