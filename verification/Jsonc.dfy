/** Removing the comments from JSON with comments, after `config/src/jsonc.rs`,
    on text of one byte a character. */
module Jsonc {

  // ----- Tokens -----

  /** A line or block comment starts here, outside a string. */
  predicate CommentAt(s: string, i: nat) {
    i + 1 < |s| && s[i] == '/' && (s[i + 1] == '/' || s[i + 1] == '*')
  }

  /** Where a string literal ends that is open at `i`: after its closing quote,
      backslashes taking the character after them along; or at the end of the text. */
  function StringEnd(s: string, i: nat): (e: nat)
    requires i <= |s|
    ensures i <= e <= |s|
    decreases |s| - i
  {
    if i == |s| then i
    else if s[i] == '\\' && i + 1 < |s| then StringEnd(s, i + 2)
    else if s[i] == '"' then i + 1
    else StringEnd(s, i + 1)
  }

  /** A line comment ends before the next line break. */
  function LineEnd(s: string, i: nat): (e: nat)
    requires i <= |s|
    ensures i <= e <= |s| && (e < |s| ==> s[e] == '\n')
    ensures forall p | i <= p < e :: s[p] != '\n'
    decreases |s| - i
  {
    if i == |s| || s[i] == '\n' then i else LineEnd(s, i + 1)
  }

  predicate Closes(s: string, p: nat) { p + 1 < |s| && s[p] == '*' && s[p + 1] == '/' }

  /** A block comment ends after the next closing mark; without one it ends before
      the last character of the text. */
  function BlockEnd(s: string, i: nat): (e: nat)
    requires i <= |s|
    ensures i <= e <= |s|
    ensures (i + 2 <= e && Closes(s, e - 2) && forall p | i <= p < e - 2 :: !Closes(s, p))
            || ((forall p | i <= p < |s| :: !Closes(s, p)) && e == if i == |s| then i else |s| - 1)
    decreases |s| - i
  {
    if i + 1 >= |s| then i
    else if Closes(s, i) then i + 2
    else BlockEnd(s, i + 1)
  }

  function TokenEnd(s: string, i: nat): (e: nat)
    requires i < |s|
    ensures i < e <= |s|
    ensures CommentAt(s, i) ==> i + 2 <= e
  {
    if s[i] == '"' then StringEnd(s, i + 1)
    else if !CommentAt(s, i) then i + 1
    else if s[i + 1] == '/' then LineEnd(s, i + 2)
    else BlockEnd(s, i + 2)
  }

  /** The text from `i` on without its comments. */
  function Strip(s: string, i: nat): string
    requires i <= |s|
    decreases |s| - i
  {
    if i == |s| then []
    else if CommentAt(s, i) then Strip(s, TokenEnd(s, i))
    else s[i..TokenEnd(s, i)] + Strip(s, TokenEnd(s, i))
  }

  /** The string literals and other characters, without the comments. */
  function Tokens(s: string, i: nat): seq<string>
    requires i <= |s|
    decreases |s| - i
  {
    if i == |s| then []
    else if CommentAt(s, i) then Tokens(s, TokenEnd(s, i))
    else [s[i..TokenEnd(s, i)]] + Tokens(s, TokenEnd(s, i))
  }

  // ----- The loop -----

  lemma {:induction false} FirstAndRest(s: string, i: nat, e: nat)
    requires i < e <= |s|
    ensures s[i..e] == [s[i]] + s[i + 1..e]
    ensures e == i + 1 ==> s[i..e] == [s[i]]
  {
  }

  lemma {:induction false} TakeToken(result: string, s: string, i: nat, token: string)
    requires i < |s| && !CommentAt(s, i) && token == s[i..TokenEnd(s, i)]
    ensures result + Strip(s, i) == (result + token) + Strip(s, TokenEnd(s, i))
  {
  }

  method StripComments(input: string) returns (result: string)
    ensures result == Strip(input, 0)
  {
    result := [];
    var i := 0;
    while i < |input|
      invariant i <= |input| && result + Strip(input, i) == Strip(input, 0)
    {
      if input[i] == '"' {
        var text, end := CopyString(input, i + 1);
        FirstAndRest(input, i, end);
        TakeToken(result, input, i, ['"'] + text);
        result := result + (['"'] + text);
        i := end;
      } else if input[i] == '/' && i + 1 < |input| {
        if input[i + 1] == '/' {
          i := SkipLine(input, i + 2);
        } else if input[i + 1] == '*' {
          i := SkipBlock(input, i + 2);
          if i >= |input| { break; }
        } else {
          FirstAndRest(input, i, i + 1);
          TakeToken(result, input, i, ['/']);
          result := result + ['/'];
          i := i + 1;
        }
      } else {
        FirstAndRest(input, i, i + 1);
        TakeToken(result, input, i, [input[i]]);
        result := result + [input[i]];
        i := i + 1;
      }
    }
    assert result + [] == result;
  }

  /** The rest of a literal, verbatim, from after its opening quote. */
  method CopyString(input: string, from: nat) returns (text: string, i: nat)
    requires from <= |input|
    ensures i == StringEnd(input, from) && text == input[from..i]
  {
    text, i := [], from;
    while i < |input|
      invariant from <= i <= |input| && StringEnd(input, i) == StringEnd(input, from)
      invariant text == input[from..i]
    {
      if input[i] == '\\' && i + 1 < |input| {
        text := text + [input[i]] + [input[i + 1]];
        i := i + 2;
      } else if input[i] == '"' {
        text := text + ['"'];
        i := i + 1;
        return;
      } else {
        text := text + [input[i]];
        i := i + 1;
      }
    }
  }

  method SkipLine(input: string, from: nat) returns (i: nat)
    requires from <= |input|
    ensures i == LineEnd(input, from)
  {
    i := from;
    while i < |input| && input[i] != '\n'
      invariant from <= i <= |input| && LineEnd(input, i) == LineEnd(input, from)
    {
      i := i + 1;
    }
  }

  method SkipBlock(input: string, from: nat) returns (i: nat)
    requires from <= |input|
    ensures i == BlockEnd(input, from)
  {
    i := from;
    while i + 1 < |input|
      invariant from <= i <= |input| && BlockEnd(input, i) == BlockEnd(input, from)
    {
      if input[i] == '*' && input[i + 1] == '/' {
        i := i + 2;
        return;
      }
      i := i + 1;
    }
  }

  // ----- A text without comments -----

  /** No token from `i` on is a comment. */
  predicate Clean(s: string, i: nat)
    requires i <= |s|
    decreases |s| - i
  {
    i < |s| ==> !CommentAt(s, i) && Clean(s, TokenEnd(s, i))
  }

  lemma {:induction false} StripShrinks(s: string, i: nat)
    requires i <= |s|
    ensures |Strip(s, i)| <= |s| - i
    decreases |s| - i
  {
    if i < |s| {
      StripShrinks(s, TokenEnd(s, i));
    }
  }

  /** A text stays as it is exactly when it has no comment. */
  lemma {:induction false} IdentityIff(s: string, i: nat)
    requires i <= |s|
    ensures Strip(s, i) == s[i..] <==> Clean(s, i)
    decreases |s| - i
  {
    if i < |s| {
      var e := TokenEnd(s, i);
      StripShrinks(s, e);
      if !CommentAt(s, i) {
        IdentityIff(s, e);
        assert s[i..] == s[i..e] + s[e..];
        if Strip(s, i) == s[i..] {
          assert Strip(s, e) == s[i..][e - i..] == s[e..];
        }
      }
    }
  }

  // ----- What follows depends only on what follows -----

  predicate SameRest(s: string, i: nat, t: string, j: nat)
  {
    i <= |s| && j <= |t| && s[i..] == t[j..]
  }

  lemma {:induction false} RestFrom(s: string, i: nat, t: string, j: nat, d: nat)
    requires SameRest(s, i, t, j) && i + d <= |s|
    ensures SameRest(s, i + d, t, j + d)
    ensures i + d < |s| ==> s[i + d] == t[j + d]
  {
    assert s[i..][d..] == s[i + d..] && t[j..][d..] == t[j + d..];
    if i + d < |s| {
      assert s[i..][d] == s[i + d] && t[j..][d] == t[j + d];
    }
  }

  lemma {:induction false} SameStringEnd(s: string, i: nat, t: string, j: nat)
    requires SameRest(s, i, t, j)
    ensures StringEnd(s, i) - i == StringEnd(t, j) - j
    decreases |s| - i
  {
    if i < |s| {
      RestFrom(s, i, t, j, 0);
      RestFrom(s, i, t, j, 1);
      if s[i] == '\\' && i + 1 < |s| {
        RestFrom(s, i, t, j, 2);
        SameStringEnd(s, i + 2, t, j + 2);
      } else if s[i] != '"' {
        SameStringEnd(s, i + 1, t, j + 1);
      }
    }
  }

  lemma {:induction false} SameLineEnd(s: string, i: nat, t: string, j: nat)
    requires SameRest(s, i, t, j)
    ensures LineEnd(s, i) - i == LineEnd(t, j) - j
    decreases |s| - i
  {
    if i < |s| {
      RestFrom(s, i, t, j, 0);
      RestFrom(s, i, t, j, 1);
      if s[i] != '\n' {
        SameLineEnd(s, i + 1, t, j + 1);
      }
    }
  }

  lemma {:induction false} SameBlockEnd(s: string, i: nat, t: string, j: nat)
    requires SameRest(s, i, t, j)
    ensures BlockEnd(s, i) - i == BlockEnd(t, j) - j
    decreases |s| - i
  {
    if i + 1 < |s| {
      RestFrom(s, i, t, j, 0);
      RestFrom(s, i, t, j, 1);
      if !Closes(s, i) {
        SameBlockEnd(s, i + 1, t, j + 1);
      }
    }
  }

  lemma {:induction false} SameTokenEnd(s: string, i: nat, t: string, j: nat)
    requires SameRest(s, i, t, j) && i < |s|
    ensures j < |t| && CommentAt(s, i) == CommentAt(t, j)
    ensures TokenEnd(s, i) - i == TokenEnd(t, j) - j
  {
    RestFrom(s, i, t, j, 0);
    RestFrom(s, i, t, j, 1);
    if s[i] == '"' {
      SameStringEnd(s, i + 1, t, j + 1);
    } else if CommentAt(s, i) {
      RestFrom(s, i, t, j, 2);
      SameLineEnd(s, i + 2, t, j + 2);
      SameBlockEnd(s, i + 2, t, j + 2);
    }
  }

  lemma {:induction false} SameToken(s: string, i: nat, t: string, j: nat)
    requires SameRest(s, i, t, j) && i < |s|
    ensures j < |t| && CommentAt(s, i) == CommentAt(t, j)
    ensures SameRest(s, TokenEnd(s, i), t, TokenEnd(t, j))
    ensures s[i..TokenEnd(s, i)] == t[j..TokenEnd(t, j)]
  {
    SameTokenEnd(s, i, t, j);
    SameSlice(s, i, t, j, TokenEnd(s, i) - i);
  }

  lemma {:induction false} SameSlice(s: string, i: nat, t: string, j: nat, d: nat)
    requires SameRest(s, i, t, j) && i + d <= |s|
    ensures SameRest(s, i + d, t, j + d) && s[i..i + d] == t[j..j + d]
  {
    RestFrom(s, i, t, j, d);
    assert s[i..i + d] == s[i..][..d] && t[j..j + d] == t[j..][..d];
  }

  lemma {:induction false} SameTokens(s: string, i: nat, t: string, j: nat)
    requires SameRest(s, i, t, j)
    ensures Tokens(s, i) == Tokens(t, j) && Clean(s, i) == Clean(t, j)
    decreases |s| - i
  {
    if i < |s| {
      SameToken(s, i, t, j);
      SameTokens(s, TokenEnd(s, i), t, TokenEnd(t, j));
    }
  }

  // ----- The stripped text -----

  /** What is left of a literal is read as the same literal. */
  lemma {:induction false} StringKept(s: string, i: nat, e: nat, t: string, j: nat)
    requires i <= |s| && e == StringEnd(s, i) && j + (e - i) <= |t| && t[j..j + (e - i)] == s[i..e]
    requires e == |s| ==> |t| == j + (e - i)
    ensures StringEnd(t, j) == j + (e - i)
    decreases |s| - i
  {
    if i < |s| {
      assert s[i] == s[i..e][0] == t[j..j + (e - i)][0] == t[j];
      if s[i] == '\\' && i + 1 < |s| {
        assert t[j + 2..j + (e - i)] == t[j..j + (e - i)][2..] == s[i..e][2..] == s[i + 2..e];
        StringKept(s, i + 2, e, t, j + 2);
      } else if s[i] != '"' {
        assert t[j + 1..j + (e - i)] == t[j..j + (e - i)][1..] == s[i..e][1..] == s[i + 1..e];
        StringKept(s, i + 1, e, t, j + 1);
      }
    }
  }

  /** The stripped text starts as the text does, if that is no comment. */
  lemma {:induction false} StripHead(s: string, i: nat)
    requires i < |s| && !CommentAt(s, i)
    ensures var (e, t) := (TokenEnd(s, i), Strip(s, i));
            && |t| >= e - i && t[..e - i] == s[i..e] && t[e - i..] == Strip(s, e)
            && !CommentAt(t, 0) && TokenEnd(t, 0) == e - i
  {
    var (e, t) := (TokenEnd(s, i), Strip(s, i));
    assert t[..e - i] == s[i..e] && t[e - i..] == Strip(s, e);
    assert t[0] == s[i..e][0] == s[i];
    if s[i] == '"' {
      assert t[1..1 + (e - (i + 1))] == t[..e - i][1..] == s[i..e][1..] == s[i + 1..e];
      StringKept(s, i + 1, e, t, 1);
    } else if i + 1 < |s| && s[i] == '/' {
      var rest := Strip(s, i + 1);
      assert !CommentAt(s, i + 1) && rest[0] == s[i + 1];
      assert t[1] == rest[0];
    }
  }

  /** Stripping keeps every string literal and every character outside comments and
      literals, in order; and the result reads as having no comment. */
  lemma {:induction false} StripKeepsTokens(s: string, i: nat)
    requires i <= |s|
    ensures Tokens(Strip(s, i), 0) == Tokens(s, i)
    ensures Clean(Strip(s, i), 0)
    decreases |s| - i
  {
    if i < |s| {
      var e := TokenEnd(s, i);
      StripKeepsTokens(s, e);
      if !CommentAt(s, i) {
        StripHead(s, i);
        var t := Strip(s, i);
        assert t[e - i..] == Strip(s, e) == Strip(s, e)[0..];
        SameTokens(t, e - i, Strip(s, e), 0);
        assert t[0..e - i] == s[i..e];
      }
    }
  }

  lemma {:induction false} StripTwice(s: string)
    ensures Strip(Strip(s, 0), 0) == Strip(s, 0)
  {
    StripKeepsTokens(s, 0);
    IdentityIff(Strip(s, 0), 0);
    assert Strip(s, 0)[0..] == Strip(s, 0);
  }

  /** A block comment that is never closed swallows all but the last character. */
  lemma {:induction false} UnclosedBlock(s: string, i: nat)
    requires i + 1 < |s| && s[i] == '/' && s[i + 1] == '*' && forall p | i + 2 <= p < |s| :: !Closes(s, p)
    ensures Strip(s, i) == if |s| == i + 2 then [] else [s[|s| - 1]]
  {
    var e := TokenEnd(s, i);
    if e < |s| {
      assert TokenEnd(s, e) == |s| && !CommentAt(s, e);
      assert s[e..|s|] == [s[e]];
      assert Strip(s, |s|) == [];
    }
  }

  // ----- Inside and outside strings, character by character -----

  datatype Mode = Code | InString | Escaped

  function Next(m: Mode, c: char): Mode {
    match m
    case Code => if c == '"' then InString else Code
    case InString => if c == '\\' then Escaped else if c == '"' then Code else InString
    case Escaped => InString
  }

  /** Where the text stands before character `p`. */
  function ModeAt(s: string, p: nat): Mode
    requires p <= |s|
  {
    if p == 0 then Code else Next(ModeAt(s, p - 1), s[p - 1])
  }

  lemma {:induction false} StringModes(s: string, i: nat)
    requires i <= |s| && ModeAt(s, i) == InString
    ensures forall p | i <= p < StringEnd(s, i) :: ModeAt(s, p) != Code
    ensures StringEnd(s, i) < |s| ==> ModeAt(s, StringEnd(s, i)) == Code
    decreases |s| - i
  {
    if i < |s| {
      if s[i] == '\\' && i + 1 < |s| {
        assert ModeAt(s, i + 1) == Escaped && ModeAt(s, i + 2) == InString;
        StringModes(s, i + 2);
      } else if s[i] != '"' {
        assert ModeAt(s, i + 1) == if s[i] == '\\' then Escaped else InString;
        if i + 1 < |s| {
          StringModes(s, i + 1);
        }
      }
    }
  }

  /** In a clean text no comment mark stands outside a string. */
  lemma {:induction false} CleanMeans(s: string, i: nat, p: nat)
    requires i <= p < |s| && ModeAt(s, i) == Code && Clean(s, i) && ModeAt(s, p) == Code
    ensures !CommentAt(s, p)
    decreases |s| - i
  {
    if i < p {
      var e := TokenEnd(s, i);
      if s[i] == '"' {
        assert ModeAt(s, i + 1) == InString;
        StringModes(s, i + 1);
      }
      CleanMeans(s, e, p);
    }
  }

  /** The result has no comment mark outside strings. */
  lemma {:induction false} NoCommentLeft(s: string, p: nat)
    requires p < |Strip(s, 0)| && ModeAt(Strip(s, 0), p) == Code
    ensures !CommentAt(Strip(s, 0), p)
  {
    StripKeepsTokens(s, 0);
    CleanMeans(Strip(s, 0), 0, p);
  }
}
