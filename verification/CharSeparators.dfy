/** char_separator under both empty-token policies, one token per call, and whole runs against a
    character-by-character split. */
module CharSeparators {

  datatype EmptyTokenPolicy = DropEmptyTokens | KeepEmptyTokens

  /** Character classes; `ispunct` and `isspace` belong to the locale. */
  type CharClass = char -> bool

  // ----- the recursive split -----

  /** Splits s, the current field holding `field`: dropped delimiters end fields, kept ones end
      fields and are tokens themselves. A character of both classes counts as kept. */
  function Split(kept: CharClass, dropped: CharClass, s: string, field: string): (r: seq<string>)
    ensures |r| > 0
    decreases |s|
  {
    if s == [] then [field]
    else if kept(s[0]) then [field, [s[0]]] + Split(kept, dropped, s[1..], "")
    else if dropped(s[0]) then [field] + Split(kept, dropped, s[1..], "")
    else Split(kept, dropped, s[1..], field + [s[0]])
  }

  function Count(p: CharClass, s: string): nat {
    if s == [] then 0 else (if p(s[0]) then 1 else 0) + Count(p, s[1..])
  }

  function Concat(tokens: seq<string>): string {
    if tokens == [] then [] else tokens[0] + Concat(tokens[1..])
  }

  function Select(p: CharClass, s: string): string {
    if s == [] then [] else (if p(s[0]) then [s[0]] else []) + Select(p, s[1..])
  }

  function NonEmpty(tokens: seq<string>): seq<string> {
    if tokens == [] then [] else (if tokens[0] == [] then [] else [tokens[0]]) + NonEmpty(tokens[1..])
  }

  /** A field reaches to the first delimiter, or to the end; a kept delimiter is the next token. */
  lemma {:induction false} SplitField(kept: CharClass, dropped: CharClass, field: string, word: string, ch: char, rest: string)
    requires forall i :: 0 <= i < |word| ==> !kept(word[i]) && !dropped(word[i])
    ensures Split(kept, dropped, word, field) == [field + word]
    ensures kept(ch) ==>
      Split(kept, dropped, word + [ch] + rest, field) == [field + word, [ch]] + Split(kept, dropped, rest, "")
    ensures !kept(ch) && dropped(ch) ==>
      Split(kept, dropped, word + [ch] + rest, field) == [field + word] + Split(kept, dropped, rest, "")
    decreases |word|
  {
    var s := word + [ch] + rest;
    if word == [] {
      assert field + word == field && s[0] == ch && s[1..] == rest;
    } else {
      SplitField(kept, dropped, field + [word[0]], word[1..], ch, rest);
      assert s[1..] == word[1..] + [ch] + rest;
      assert (field + [word[0]]) + word[1..] == field + word;
    }
  }

  /** One token more than there are dropped delimiters, and two more for each kept one. */
  lemma {:induction false} SplitCount(kept: CharClass, dropped: CharClass, s: string, field: string)
    ensures |Split(kept, dropped, s, field)| == 1 + Count(ch => dropped(ch) && !kept(ch), s) + 2 * Count(kept, s)
    decreases |s|
  {
    if s != [] {
      if kept(s[0]) || dropped(s[0]) {
        SplitCount(kept, dropped, s[1..], "");
      } else {
        SplitCount(kept, dropped, s[1..], field + [s[0]]);
      }
    }
  }

  /** Nothing is lost but dropped delimiters, nothing is added, and the order stays. */
  lemma {:induction false} SplitLosesOnlyDropped(kept: CharClass, dropped: CharClass, s: string, field: string)
    ensures Concat(Split(kept, dropped, s, field)) == field + Select(ch => kept(ch) || !dropped(ch), s)
    decreases |s|
  {
    var r := Split(kept, dropped, s, field);
    if s == [] {
      assert Concat([field][1..]) == [];
    } else if kept(s[0]) {
      SplitLosesOnlyDropped(kept, dropped, s[1..], "");
      var rest := Split(kept, dropped, s[1..], "");
      assert r[1..] == [[s[0]]] + rest;
      assert r[1..][1..] == rest;
    } else if dropped(s[0]) {
      SplitLosesOnlyDropped(kept, dropped, s[1..], "");
      assert r[1..] == Split(kept, dropped, s[1..], "");
    } else {
      SplitLosesOnlyDropped(kept, dropped, s[1..], field + [s[0]]);
    }
  }

  // ----- words -----

  /** The length of the longest prefix without delimiters. */
  function WordLength(kept: CharClass, dropped: CharClass, s: string): (n: nat)
    ensures n <= |s| && (n < |s| ==> kept(s[n]) || dropped(s[n]))
    ensures forall i :: 0 <= i < n ==> !kept(s[i]) && !dropped(s[i])
  {
    if s == [] || kept(s[0]) || dropped(s[0]) then 0 else 1 + WordLength(kept, dropped, s[1..])
  }

  lemma {:induction false} SplitWord(kept: CharClass, dropped: CharClass, s: string, field: string)
    ensures var n := WordLength(kept, dropped, s);
            Split(kept, dropped, s, field) == Split(kept, dropped, s[n..], field + s[..n])
    decreases |s|
  {
    var n := WordLength(kept, dropped, s);
    if n == 0 {
      assert s[0..] == s && field + s[..0] == field;
    } else {
      SplitWord(kept, dropped, s[1..], field + [s[0]]);
      assert s[1..][n - 1..] == s[n..];
      assert (field + [s[0]]) + s[1..][..n - 1] == field + s[..n];
    }
  }

  // ----- a run that keeps empty tokens -----

  /** The tokens still to come; `done` says the field in front of s has been put out. */
  function KeepRun(kept: CharClass, dropped: CharClass, s: string, done: bool): seq<string>
    decreases |s|, !done
  {
    if s == [] then (if done then [] else [""])
    else if kept(s[0]) then
      if done then [[s[0]]] + KeepRun(kept, dropped, s[1..], false) else [""] + KeepRun(kept, dropped, s, true)
    else if !done && dropped(s[0]) then [""] + KeepRun(kept, dropped, s, true)
    else
      var t := if dropped(s[0]) then s[1..] else s;
      var n := WordLength(kept, dropped, t);
      [t[..n]] + KeepRun(kept, dropped, t[n..], true)
  }

  /** When a word is next, a dropped delimiter in front of it is passed. */
  lemma KeepWord(kept: CharClass, dropped: CharClass, s: string, done: bool, t: string)
    requires s != [] && !kept(s[0]) && (done || !dropped(s[0])) && t == if dropped(s[0]) then s[1..] else s
    ensures var n := WordLength(kept, dropped, t);
            KeepRun(kept, dropped, s, done) == [t[..n]] + KeepRun(kept, dropped, t[n..], true)
  {
  }

  predicate AtDelimiter(kept: CharClass, dropped: CharClass, s: string) {
    s == [] || kept(s[0]) || dropped(s[0])
  }

  /** What a split yields behind its first field. */
  lemma {:induction false} KeepRunIsSplit(kept: CharClass, dropped: CharClass, s: string, done: bool)
    ensures !done ==> KeepRun(kept, dropped, s, done) == Split(kept, dropped, s, "")
    ensures !AtDelimiter(kept, dropped, s) ==> KeepRun(kept, dropped, s, done) == Split(kept, dropped, s, "")
    ensures done && AtDelimiter(kept, dropped, s) ==>
      forall field :: [field] + KeepRun(kept, dropped, s, done) == Split(kept, dropped, s, field)
    decreases |s|, !done
  {
    if s == [] {
      assert forall field: string :: [field] + [] == [field];
    } else if kept(s[0]) {
      if done {
        KeepRunIsSplit(kept, dropped, s[1..], false);
        var rest := Split(kept, dropped, s[1..], "");
        assert forall field: string :: [field] + ([[s[0]]] + rest) == [field, [s[0]]] + rest;
      } else {
        KeepRunIsSplit(kept, dropped, s, true);
      }
    } else if !done && dropped(s[0]) {
      KeepRunIsSplit(kept, dropped, s, true);
    } else {
      var t := if dropped(s[0]) then s[1..] else s;
      var n := WordLength(kept, dropped, t);
      KeepRunIsSplit(kept, dropped, t[n..], true);
      SplitWord(kept, dropped, t, "");
      assert "" + t[..n] == t[..n];
    }
  }

  // ----- a run that drops empty tokens -----

  function SkipDropped(dropped: CharClass, s: string): (t: string)
    ensures |t| <= |s| && (t != [] ==> !dropped(t[0]))
  {
    if s != [] && dropped(s[0]) then SkipDropped(dropped, s[1..]) else s
  }

  function DropRun(kept: CharClass, dropped: CharClass, s: string): seq<string>
    decreases |s|
  {
    var t := SkipDropped(dropped, s);
    if t == [] then []
    else if kept(t[0]) then [[t[0]]] + DropRun(kept, dropped, t[1..])
    else
      var n := WordLength(kept, dropped, t);
      [t[..n]] + DropRun(kept, dropped, t[n..])
  }

  /** The kept delimiters that are not dropped as well: when empty tokens are dropped, a character
      of both classes counts as dropped. */
  function Only(kept: CharClass, dropped: CharClass): (p: CharClass)
    ensures forall ch :: p(ch) <==> kept(ch) && !dropped(ch)
  {
    ch => kept(ch) && !dropped(ch)
  }

  lemma {:induction false} SkipKeepsTokens(kept: CharClass, dropped: CharClass, s: string)
    ensures NonEmpty(Split(Only(kept, dropped), dropped, s, ""))
         == NonEmpty(Split(Only(kept, dropped), dropped, SkipDropped(dropped, s), ""))
    decreases |s|
  {
    if s != [] && dropped(s[0]) {
      var rest := Split(Only(kept, dropped), dropped, s[1..], "");
      assert ([""] + rest)[1..] == rest;
      SkipKeepsTokens(kept, dropped, s[1..]);
    }
  }

  lemma {:induction false} SameWords(kept: CharClass, dropped: CharClass, s: string)
    ensures WordLength(Only(kept, dropped), dropped, s) == WordLength(kept, dropped, s)
  {
    if s != [] && !kept(s[0]) && !dropped(s[0]) { SameWords(kept, dropped, s[1..]); }
  }

  /** The tokens behind a field that ends where s starts. */
  function Behind(kept: CharClass, dropped: CharClass, s: string): seq<string> {
    if s == [] then []
    else if kept(s[0]) then [[s[0]]] + Split(kept, dropped, s[1..], "")
    else Split(kept, dropped, s[1..], "")
  }

  lemma SplitHead(kept: CharClass, dropped: CharClass, s: string, field: string)
    requires AtDelimiter(kept, dropped, s)
    ensures Split(kept, dropped, s, field) == [field] + Behind(kept, dropped, s)
  {
  }

  lemma NonEmptyHead(field: string, rest: seq<string>)
    ensures NonEmpty([field] + rest) == (if field == [] then [] else [field]) + NonEmpty(rest)
  {
    assert ([field] + rest)[1..] == rest;
  }

  /** At a delimiter the current field is complete. */
  lemma FieldComplete(kept: CharClass, dropped: CharClass, s: string, field: string)
    requires AtDelimiter(kept, dropped, s) && field != []
    ensures NonEmpty(Split(kept, dropped, s, field)) == [field] + NonEmpty(Split(kept, dropped, s, ""))
  {
    SplitHead(kept, dropped, s, field);
    SplitHead(kept, dropped, s, "");
    NonEmptyHead(field, Behind(kept, dropped, s));
    NonEmptyHead("", Behind(kept, dropped, s));
  }

  /** Dropping empty tokens is splitting and then leaving out the empty fields. */
  lemma {:induction false} DropRunIsSplit(kept: CharClass, dropped: CharClass, s: string)
    ensures DropRun(kept, dropped, s) == NonEmpty(Split(Only(kept, dropped), dropped, s, ""))
    decreases |s|
  {
    var k, t := Only(kept, dropped), SkipDropped(dropped, s);
    SkipKeepsTokens(kept, dropped, s);
    if t == [] {
      assert Split(k, dropped, t, "") == [""];
      assert [""][1..] == [];
    } else if kept(t[0]) {
      DropRunIsSplit(kept, dropped, t[1..]);
      var rest := Split(k, dropped, t[1..], "");
      assert Split(k, dropped, t, "") == ["", [t[0]]] + rest;
      assert (["", [t[0]]] + rest)[1..] == [[t[0]]] + rest;
      assert ([[t[0]]] + rest)[1..] == rest;
    } else {
      var n := WordLength(kept, dropped, t);
      SameWords(kept, dropped, t);
      SplitWord(k, dropped, t, "");
      assert "" + t[..n] == t[..n];
      FieldComplete(k, dropped, t[n..], t[..n]);
      DropRunIsSplit(kept, dropped, t[n..]);
    }
  }

  /** A call puts out the first token of what is to come, or there is none. */
  ghost predicate Yields(run: seq<string>, ok: bool, tok: string, rest: seq<string>) {
    run == if ok then [tok] + rest else []
  }

  // ----- the tokenizer function -----

  /** The settings of a separator, fixed when it is made. */
  datatype Delimiters = Delimiters(kept: string, dropped: string, useIsPunct: bool, useIsSpace: bool,
                                   isPunct: CharClass, isSpace: CharClass, emptyTokens: EmptyTokenPolicy)
  {
    predicate IsKept(ch: char) {
      if kept != "" then ch in kept else useIsPunct && isPunct(ch)
    }

    predicate IsDropped(ch: char) {
      if dropped != "" then ch in dropped else useIsSpace && isSpace(ch)
    }

    /** An empty string means the locale's class, or nothing. */
    function Kept(): (p: CharClass)
      ensures forall ch :: p(ch) <==> ch in kept || (kept == "" && useIsPunct && isPunct(ch))
    {
      ch => IsKept(ch)
    }

    function Dropped(): (p: CharClass)
      ensures forall ch :: p(ch) <==> ch in dropped || (dropped == "" && useIsSpace && isSpace(ch))
    {
      ch => IsDropped(ch)
    }
  }

  /** The tokens that a separator with these settings yields from s. */
  function RunOf(x: Delimiters, s: string, done: bool): seq<string> {
    if x.emptyTokens.DropEmptyTokens? then DropRun(x.Kept(), x.Dropped(), s) else KeepRun(x.Kept(), x.Dropped(), s, done)
  }

  class CharSeparator {
    const x: Delimiters
    var outputDone: bool

    constructor (droppedDelims: string, keptDelims: string, emptyTokens: EmptyTokenPolicy,
                 isPunct: CharClass, isSpace: CharClass)
      ensures x == Delimiters(keptDelims, droppedDelims, false, false, isPunct, isSpace, emptyTokens) && !outputDone
      ensures forall ch :: (x.Kept()(ch) <==> ch in keptDelims) && (x.Dropped()(ch) <==> ch in droppedDelims)
    {
      x := Delimiters(keptDelims, droppedDelims, false, false, isPunct, isSpace, emptyTokens);
      outputDone := false;
    }

    /** The default separator: punctuation kept, white space dropped, by the locale. The flag, which
        only the other policy reads, is left undefined. */
    constructor ByLocale(isPunct: CharClass, isSpace: CharClass)
      ensures x == Delimiters("", "", true, true, isPunct, isSpace, DropEmptyTokens)
      ensures forall ch :: (x.Kept()(ch) <==> isPunct(ch)) && (x.Dropped()(ch) <==> isSpace(ch))
    {
      x := Delimiters("", "", true, true, isPunct, isSpace, DropEmptyTokens);
      outputDone := *;
    }

    constructor Copy(f: CharSeparator)
      ensures x == f.x && outputDone == f.outputDone
    {
      x, outputDone := f.x, f.outputDone;
    }

    /** The tokens still to come from an input suffix. */
    ghost function Run(s: string): seq<string>
      reads this
    {
      RunOf(x, s, outputDone)
    }

    /** `operator()`: puts out the next token, if there is one. A call may consume nothing, but
        then the next one does not. */
    method Call(input: string, begin: nat) returns (next: nat, tok: string, ok: bool)
      requires begin <= |input|
      modifies this
      ensures begin <= next <= |input|
      ensures Yields(old(Run(input[begin..])), ok, tok, Run(input[next..]))
      ensures ok && next == begin ==> !old(outputDone) && outputDone && x.emptyTokens.KeepEmptyTokens?
    {
      if x.emptyTokens.DropEmptyTokens? {
        next, tok, ok := CallDropping(input, begin);
      } else {
        next, tok, ok := CallKeeping(input, begin);
      }
    }

    /** The parts of `operator()` for drop_empty_tokens. */
    method CallDropping(input: string, begin: nat) returns (next: nat, tok: string, ok: bool)
      requires begin <= |input|
      ensures begin <= next <= |input| && (ok ==> begin < next)
      ensures Yields(DropRun(x.Kept(), x.Dropped(), input[begin..]), ok, tok, DropRun(x.Kept(), x.Dropped(), input[next..]))
    {
      next, tok := begin, "";
      ghost var rest := SkipDropped(x.Dropped(), input[begin..]);
      while next != |input| && x.IsDropped(input[next])
        invariant begin <= next <= |input|
        invariant rest == SkipDropped(x.Dropped(), input[next..])
        decreases |input| - next
      {
        assert input[next..][1..] == input[next + 1..];
        next := next + 1;
      }
      assert rest == input[next..];
      var start := next;
      if next == |input| {
        return next, tok, false;
      }
      if x.IsKept(input[next]) {
        next := next + 1;
        assert rest[1..] == input[next..];
        assert input[start..next] == [rest[0]];
      } else {
        next := ScanWord(input, next);
      }
      return next, input[start..next], true;
    }

    /** The parts of `operator()` for keep_empty_tokens. */
    method CallKeeping(input: string, begin: nat) returns (next: nat, tok: string, ok: bool)
      requires begin <= |input|
      modifies this
      ensures begin <= next <= |input| && (ok && next == begin ==> !old(outputDone) && outputDone)
      ensures Yields(KeepRun(x.Kept(), x.Dropped(), input[begin..], old(outputDone)), ok, tok,
                     KeepRun(x.Kept(), x.Dropped(), input[next..], outputDone))
    {
      hide Split, DropRun, WordLength;
      next, tok := begin, "";
      var start := next;
      ghost var rest, done := input[begin..], outputDone;
      if next == |input| {
        if !outputDone {
          outputDone := true;
          assert rest == "" == input[start..next];
          return next, input[start..next], true;
        } else {
          return next, tok, false;
        }
      }
      ghost var run := KeepRun(x.Kept(), x.Dropped(), rest, done);
      if x.IsKept(input[next]) {
        if !outputDone {
          assert run == [""] + KeepRun(x.Kept(), x.Dropped(), rest, true);
          outputDone := true;
        } else {
          assert run == [[rest[0]]] + KeepRun(x.Kept(), x.Dropped(), rest[1..], false);
          next := next + 1;
          outputDone := false;
          assert input[start..next] == [rest[0]] && input[next..] == rest[1..];
        }
      } else if !outputDone && x.IsDropped(input[next]) {
        assert run == [""] + KeepRun(x.Kept(), x.Dropped(), rest, true);
        outputDone := true;
      } else {
        if x.IsDropped(input[next]) {
          next := next + 1;
          start := next;
          assert input[next..] == rest[1..];
        }
        KeepWord(x.Kept(), x.Dropped(), rest, done, input[start..]);
        next := ScanWord(input, next);
        outputDone := true;
      }
      tok := input[start..next];
      assert run == [tok] + KeepRun(x.Kept(), x.Dropped(), input[next..], outputDone);
      return next, tok, true;
    }

    /** The loop over the characters that are no delimiters. */
    method ScanWord(input: string, begin: nat) returns (next: nat)
      requires begin <= |input|
      ensures next == begin + WordLength(x.Kept(), x.Dropped(), input[begin..]) <= |input|
      ensures input[begin..][..next - begin] == input[begin..next]
      ensures input[begin..][next - begin..] == input[next..]
    {
      next := begin;
      while next != |input| && !x.IsDropped(input[next]) && !x.IsKept(input[next])
        invariant begin <= next <= |input|
        invariant WordLength(x.Kept(), x.Dropped(), input[begin..]) == next - begin + WordLength(x.Kept(), x.Dropped(), input[next..])
        decreases |input| - next
      {
        assert input[next..][1..] == input[next + 1..];
        next := next + 1;
      }
    }
  }

  // ----- the iterator -----

  class CharTokenIterator {
    const f: CharSeparator
    const input: string
    var begin: nat
    var valid: bool
    var tok: string

    ghost predicate Valid()
      reads this
    {
      begin <= |input|
    }

    /** The tokens from the current one on. */
    ghost function Rest(): seq<string>
      requires Valid()
      reads this, f
    {
      if valid then [tok] + f.Run(input[begin..]) else []
    }

    /** Copies the tokenizer function and reads the first token; `reset` does nothing here. */
    constructor (f: CharSeparator, input: string)
      ensures Valid() && fresh(this.f) && this.f.x == f.x && this.input == input
      ensures Rest() == if input == [] then [] else f.Run(input)
    {
      this.f := new CharSeparator.Copy(f);
      this.input := input;
      begin, valid, tok := 0, false, "";
      new;
      assert input[0..] == input;
      if begin != |input| {
        begin, tok, valid := this.f.Call(input, begin);
      }
    }

    method Increment()
      requires Valid() && valid
      modifies this, f
      ensures Valid() && old(Rest()) == [old(tok)] + Rest()
    {
      begin, tok, valid := f.Call(input, begin);
    }
  }

  lemma ConcatAssociative<T>(a: seq<T>, b: seq<T>, c: seq<T>)
    ensures a + (b + c) == (a + b) + c
  {
  }

  /** A loop over all tokens of an input; a separator that keeps empty tokens must not have been used yet. */
  method AllTokens(f: CharSeparator, input: string) returns (tokens: seq<string>)
    requires f.x.emptyTokens.KeepEmptyTokens? ==> !f.outputDone
    ensures f.x.emptyTokens.KeepEmptyTokens? ==>
      tokens == if input == [] then [] else Split(f.x.Kept(), f.x.Dropped(), input, "")
    ensures f.x.emptyTokens.DropEmptyTokens? ==>
      tokens == NonEmpty(Split(Only(f.x.Kept(), f.x.Dropped()), f.x.Dropped(), input, ""))
  {
    KeepRunIsSplit(f.x.Kept(), f.x.Dropped(), input, false);
    DropRunIsSplit(f.x.Kept(), f.x.Dropped(), input);
    var it := new CharTokenIterator(f, input);
    ghost var whole := it.Rest();
    tokens := [];
    while it.valid
      invariant it.Valid() && fresh(it) && fresh(it.f) && whole == tokens + it.Rest()
      decreases |it.Rest()|
    {
      ghost var before, passed := tokens, it.tok;
      tokens := tokens + [it.tok];
      it.Increment();
      ConcatAssociative(before, [passed], it.Rest());
    }
  }
}
