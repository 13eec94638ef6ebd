/**
 Toolchain selection: `choose_toolchain` and the "stable" fallback of `run`.

 The configuration text is searched with the regular expression
     rustup run(?: --install)? (\S+)
 and capture group 1 of the leftmost match names the toolchain.  The regex
 engine's semantics are modelled twice: `IsMatch` describes every match the
 pattern admits (the language of the pattern, with the span of group 1), and
 `MatchAt` is the deterministic leftmost-first, greedy choice the engine makes.
 The lemmas below show that the two agree.
 */
module Toolchain {
  import opened Wrappers

  /** `\s` in the regex crate's default Unicode mode: the Unicode White_Space property. */
  predicate IsWhitespace(c: char) {
    || ('\t' <= c <= '\r')
    || c == ' '
    || c == '\U{0085}'
    || c == '\U{00A0}'
    || c == '\U{1680}'
    || ('\U{2000}' <= c <= '\U{200A}')
    || c == '\U{2028}'
    || c == '\U{2029}'
    || c == '\U{202F}'
    || c == '\U{205F}'
    || c == '\U{3000}'
  }

  /** The literal that opens the pattern. */
  const Command: string := "rustup run"
  /** The optional group `(?: --install)`. */
  const InstallFlag: string := " --install"
  /** The toolchain used whenever no other one can be determined. */
  const DefaultToolchain: string := "stable"

  /** Why the configuration file could not be read as text (`fs::read_to_string`). */
  datatype ReadError = NotFound | PermissionDenied | InvalidUtf8 | OtherIo

  /** The literal `lit` occurs in `text` starting at position `i`. */
  predicate HasAt(text: string, i: nat, lit: string) {
    i + |lit| <= |text| && text[i..i + |lit|] == lit
  }

  /** Every character of `text[b..e]` is a non-whitespace character. */
  predicate NonBlank(text: string, b: nat, e: nat)
    requires b <= e <= |text|
  {
    forall k :: b <= k < e ==> !IsWhitespace(text[k])
  }

  /** End of the longest run of non-whitespace characters that starts at `j`. */
  function RunEnd(text: string, j: nat): (e: nat)
    requires j <= |text|
    ensures j <= e <= |text|
    ensures NonBlank(text, j, e)
    ensures e == |text| || IsWhitespace(text[e])
    decreases |text| - j
  {
    if j == |text| || IsWhitespace(text[j]) then j else RunEnd(text, j + 1)
  }

  /** The span `[begin, end)` of capture group 1. */
  datatype Capture = Capture(begin: nat, end: nat)

  /** A match of the whole pattern: where it starts and where group 1 lies. */
  datatype Match = Match(start: nat, group: Capture)

  /**
   The pattern's language: some match of `rustup run(?: --install)? (\S+)`
   starts at `i` and has its group 1 at `c`.  This admits every alternative
   and every length of `\S+`, with no preference between them.
   */
  predicate IsMatch(text: string, i: nat, c: Capture) {
    && c.begin < c.end <= |text|
    && (|| (c.begin == i + |Command| + 1 && HasAt(text, i, Command + " "))
        || (c.begin == i + |Command| + |InstallFlag| + 1 && HasAt(text, i, Command + InstallFlag + " ")))
    && NonBlank(text, c.begin, c.end)
  }

  /**
   Leftmost-first preference between two matches at the same start: the
   `--install` alternative is tried before the empty one (its group starts
   later), and within an alternative the greedy `\S+` prefers the longer run.
   */
  predicate Prefers(c: Capture, d: Capture) {
    c.begin > d.begin || (c.begin == d.begin && c.end >= d.end)
  }

  /** `(\S+)` at position `b`: the greedy run, which must not be empty. */
  function TokenAt(text: string, b: nat): (r: Option<Capture>)
    requires b <= |text|
    ensures r.None? <==> b == |text| || IsWhitespace(text[b])
    ensures r.Some? ==> r.value.begin == b < r.value.end <= |text|
    ensures r.Some? ==> NonBlank(text, b, r.value.end)
    ensures r.Some? ==> r.value.end == |text| || IsWhitespace(text[r.value.end])
  {
    var e := RunEnd(text, b);
    if e == b then None else Some(Capture(b, e))
  }

  /**
   The engine's choice at start `i`: the `--install` alternative first; if it
   cannot be completed, backtrack to the alternative without it.
   */
  function MatchAt(text: string, i: nat): (r: Option<Capture>)
    requires i <= |text|
    ensures r.Some? ==> i + |Command| + 1 <= r.value.begin < r.value.end <= |text|
  {
    if !HasAt(text, i, Command) then None
    else
      var k := i + |Command|;
      var withFlag :=
        if HasAt(text, k, InstallFlag) && HasAt(text, k + |InstallFlag|, " ")
        then TokenAt(text, k + |InstallFlag| + 1)
        else None;
      if withFlag.Some? then withFlag
      else if HasAt(text, k, " ") then TokenAt(text, k + 1)
      else None
  }

  /** Splitting a literal occurrence into two adjacent ones, and back. */
  lemma HasAtConcat(text: string, i: nat, a: string, b: string)
    ensures HasAt(text, i, a + b) <==> HasAt(text, i, a) && HasAt(text, i + |a|, b)
  {
    if HasAt(text, i, a) && HasAt(text, i + |a|, b) {
      assert text[i..i + |a + b|] == text[i..i + |a|] + text[i + |a|..i + |a| + |b|];
    }
    if HasAt(text, i, a + b) {
      assert text[i..i + |a|] == (a + b)[..|a|];
      assert text[i + |a|..i + |a| + |b|] == (a + b)[|a|..];
    }
  }

  /** A non-whitespace run cannot cross a whitespace character (or the end of the text). */
  lemma RunStopsAt(text: string, b: nat, e: nat, e2: nat)
    requires b <= e <= |text| && b <= e2 <= |text|
    requires NonBlank(text, b, e2)
    requires e == |text| || IsWhitespace(text[e])
    ensures e2 <= e
  {
  }

  /** One differing character rules a literal out at a position. */
  lemma MismatchRulesOut(text: string, i: nat, lit: string, m: nat)
    requires m < |lit| && i + m < |text| && text[i + m] != lit[m]
    ensures !HasAt(text, i, lit)
  {
  }

  /**
   `MatchAt` is the leftmost-first greedy choice: it finds a match exactly
   when the pattern matches at `i`, and the one it finds is preferred to
   every other match at `i`.
   */
  lemma MatchAtIsPreferredMatch(text: string, i: nat)
    requires i <= |text|
    ensures MatchAt(text, i).None? <==> forall c :: !IsMatch(text, i, c)
    ensures MatchAt(text, i).Some? ==>
              && IsMatch(text, i, MatchAt(text, i).value)
              && forall c :: IsMatch(text, i, c) ==> Prefers(MatchAt(text, i).value, c)
  {
    var k := i + |Command|;
    HasAtConcat(text, i, Command, " ");
    HasAtConcat(text, i, Command, InstallFlag + " ");
    HasAtConcat(text, k, InstallFlag, " ");
    assert Command + InstallFlag + " " == Command + (InstallFlag + " ");
    forall c | IsMatch(text, i, c)
      ensures MatchAt(text, i).Some? && Prefers(MatchAt(text, i).value, c)
    {
      RunStopsAt(text, c.begin, RunEnd(text, c.begin), c.end);
      assert RunEnd(text, c.begin) > c.begin;
    }
    var r := MatchAt(text, i);
    if r.Some? {
      if r.value.begin == k + 1 {
        assert HasAt(text, i, Command + " ");
      } else {
        assert HasAt(text, k, InstallFlag) && HasAt(text, k + |InstallFlag|, " ");
        assert HasAt(text, i, Command + InstallFlag + " ");
      }
      assert IsMatch(text, i, r.value);
    }
  }

  /**
   The leftmost match at or after position `i`, as the regex engine's
   `captures` reports it: the smallest start at which the pattern matches.
   */
  function FirstMatchFrom(text: string, i: nat): (r: Option<Match>)
    requires i <= |text|
    ensures r.Some? ==> i <= r.value.start <= |text|
    ensures r.Some? ==> MatchAt(text, r.value.start) == Some(r.value.group)
    ensures r.Some? ==> forall j :: i <= j < r.value.start ==> MatchAt(text, j).None?
    ensures r.None? ==> forall j :: i <= j <= |text| ==> MatchAt(text, j).None?
    decreases |text| - i
  {
    match MatchAt(text, i)
    case Some(c) => Some(Match(i, c))
    case None => if i == |text| then None else FirstMatchFrom(text, i + 1)
  }

  /** The text of capture group 1 of a match the engine reported. */
  function Group1(text: string, m: Match): (t: string)
    requires m.start <= |text| && MatchAt(text, m.start) == Some(m.group)
    ensures |t| > 0 && forall k :: 0 <= k < |t| ==> !IsWhitespace(t[k])
  {
    text[m.group.begin..m.group.end]
  }

  /**
   `choose_toolchain`: an unreadable configuration is an error; otherwise the
   first capture, or "stable" when the pattern does not occur.
   */
  function ChooseToolchain(config: Result<string, ReadError>): (r: Result<string, ReadError>)
    ensures config.Failure? ==> r == Failure(config.error)
    ensures config.Success? ==> r.Success?
    ensures config.Success? && FirstMatchFrom(config.value, 0).None? ==> r.value == DefaultToolchain
  {
    match config
    case Failure(e) => Failure(e)
    case Success(text) =>
      match FirstMatchFrom(text, 0)
      case Some(m) => Success(Group1(text, m))
      case None => Success(DefaultToolchain)
  }

  /** The toolchain `run` uses: the chosen one, or "stable" when choosing failed. */
  function Resolve(config: Result<string, ReadError>): (t: string)
    ensures |t| > 0 && forall k :: 0 <= k < |t| ==> !IsWhitespace(t[k])
    ensures config.Failure? ==> t == DefaultToolchain
  {
    match ChooseToolchain(config)
    case Success(t) => t
    case Failure(_) => DefaultToolchain
  }

  /**
   Declarative characterisation of resolution when the pattern occurs: if
   `c` is the preferred match at `i` and nothing matches earlier, the
   toolchain is exactly `text[c.begin..c.end]`.
   */
  lemma ResolveLeftmost(text: string, i: nat, c: Capture)
    requires i <= |text|
    requires IsMatch(text, i, c)
    requires forall d :: IsMatch(text, i, d) ==> Prefers(c, d)
    requires forall j, d :: 0 <= j < i ==> !IsMatch(text, j, d)
    ensures c.end <= |text| && Resolve(Success(text)) == text[c.begin..c.end]
  {
    MatchAtIsPreferredMatch(text, i);
    var r := MatchAt(text, i).value;
    assert Prefers(r, c) && Prefers(c, r);
    assert r == c;
    var m := FirstMatchFrom(text, 0);
    assert m.Some?;
    MatchAtIsPreferredMatch(text, m.value.start);
    assert IsMatch(text, m.value.start, m.value.group);
    assert m.value.start == i;
  }

  /** Without any match anywhere, resolution yields exactly "stable". */
  lemma ResolveWithoutMatch(text: string)
    requires forall j, d :: 0 <= j <= |text| ==> !IsMatch(text, j, d)
    ensures Resolve(Success(text)) == DefaultToolchain
  {
    forall j | 0 <= j <= |text|
      ensures MatchAt(text, j).None?
    {
      MatchAtIsPreferredMatch(text, j);
    }
  }

  /**
   The resolved toolchain from a match is maximal: the character after it in
   the configuration is whitespace, or the text ends there.
   */
  lemma ResolvedTokenIsMaximal(text: string)
    requires FirstMatchFrom(text, 0).Some?
    ensures var g := FirstMatchFrom(text, 0).value.group;
            && Resolve(Success(text)) == text[g.begin..g.end]
            && (g.end == |text| || IsWhitespace(text[g.end]))
  {
  }

  /**
   Backtracking out of the `--install` alternative: when the flag is not
   followed by a space and a non-whitespace character, the token captured is
   the one that begins with `--install` itself.
   */
  lemma InstallFlagWithoutTokenBacktracks(text: string, i: nat)
    requires HasAt(text, i, Command + InstallFlag)
    requires !(HasAt(text, i + |Command| + |InstallFlag|, " ")
               && i + |Command| + |InstallFlag| + 1 < |text|
               && !IsWhitespace(text[i + |Command| + |InstallFlag| + 1]))
    ensures MatchAt(text, i).Some?
    ensures MatchAt(text, i).value.begin == i + |Command| + 1
    ensures HasAt(text, i + |Command| + 1, "--install")
  {
    var k := i + |Command|;
    HasAtConcat(text, i, Command, InstallFlag);
    assert text[k..k + |InstallFlag|] == InstallFlag;
    assert text[k] == ' ';
    assert text[k + 1..k + 1 + 9] == text[k..k + |InstallFlag|][1..];
    if HasAt(text, k + |InstallFlag|, " ") {
      assert TokenAt(text, k + |InstallFlag| + 1).None?;
    }
    assert !IsWhitespace(text[k + 1]);
  }

  /** A literal placed after `pre` occurs at position `|pre|`. */
  lemma HasAtAfter(pre: string, lit: string, post: string)
    ensures HasAt(pre + lit + post, |pre|, lit)
  {
    assert (pre + lit + post)[|pre|..|pre| + |lit|] == lit;
  }

  /** The characters of `tok`, placed after `pre`, are those of the text at the same offsets. */
  lemma TokenAfter(pre: string, tok: string, post: string)
    requires NonBlank(tok, 0, |tok|)
    ensures NonBlank(pre + tok + post, |pre|, |pre| + |tok|)
    ensures post != [] ==> (pre + tok + post)[|pre| + |tok|] == post[0]
  {
    var text := pre + tok + post;
    forall k | |pre| <= k < |pre| + |tok|
      ensures !IsWhitespace(text[k])
    {
      assert text[k] == tok[k - |pre|];
    }
  }

  /**
   A pinned version: when nothing matches before `rustup run --install `,
   the non-whitespace token after it is the toolchain.
   */
  lemma ResolvePinnedVersion(pre: string, tok: string, post: string)
    requires |tok| > 0 && NonBlank(tok, 0, |tok|)
    requires post == [] || IsWhitespace(post[0])
    requires forall j, d :: 0 <= j < |pre| ==> !IsMatch(pre + (Command + InstallFlag + " ") + (tok + post), j, d)
    ensures Resolve(Success(pre + (Command + InstallFlag + " ") + (tok + post))) == tok
  {
    var lit := Command + InstallFlag + " ";
    var text := pre + lit + (tok + post);
    var i := |pre|;
    var c := Capture(i + |lit|, i + |lit| + |tok|);
    assert text == (pre + lit) + tok + post;
    HasAtAfter(pre, lit, tok + post);
    HasAtAfter(pre + lit, tok, post);
    TokenAfter(pre + lit, tok, post);
    assert IsMatch(text, i, c);
    forall d | IsMatch(text, i, d)
      ensures Prefers(c, d)
    {
      if d.begin == c.begin {
        RunStopsAt(text, c.begin, c.end, d.end);
      }
    }
    ResolveLeftmost(text, i, c);
  }

  /**
   After `rustup run ` and a whitespace-free token other than `--install`,
   the `--install` alternative cannot match.
   */
  lemma FlagAlternativeFails(pre: string, tok: string, post: string)
    requires |tok| > 0 && NonBlank(tok, 0, |tok|) && tok != "--install"
    requires post == [] || IsWhitespace(post[0])
    ensures !HasAt(pre + (Command + " ") + (tok + post), |pre|, Command + InstallFlag + " ")
  {
    var lit := Command + " ";
    var text := pre + lit + (tok + post);
    var i := |pre|;
    var b := i + |lit|;
    var flagged := Command + InstallFlag + " ";
    assert text == (pre + lit) + tok + post;
    TokenAfter(pre + lit, tok, post);
    assert forall m :: 0 <= m < |tok| ==> text[b + m] == tok[m];
    assert flagged[|lit|..|lit| + 9] == "--install" && flagged[|lit| + 9] == ' ';
    if i + |flagged| <= |text| {
      if |tok| < 9 {
        assert NonBlank("--install", 0, 9);
        assert flagged[|lit| + |tok|] == "--install"[|tok|];
        MismatchRulesOut(text, i, flagged, |lit| + |tok|);
      } else if |tok| == 9 {
        var m :| 0 <= m < 9 && tok[m] != "--install"[m];
        assert flagged[|lit| + m] == "--install"[m];
        MismatchRulesOut(text, i, flagged, |lit| + m);
      } else {
        MismatchRulesOut(text, i, flagged, |lit| + 9);
      }
    }
  }

  /**
   A channel or version without the flag: when nothing matches before
   `rustup run ` and the token is not the flag itself, it is the toolchain.
   */
  lemma ResolveChannel(pre: string, tok: string, post: string)
    requires |tok| > 0 && NonBlank(tok, 0, |tok|) && tok != "--install"
    requires post == [] || IsWhitespace(post[0])
    requires forall j, d :: 0 <= j < |pre| ==> !IsMatch(pre + (Command + " ") + (tok + post), j, d)
    ensures Resolve(Success(pre + (Command + " ") + (tok + post))) == tok
  {
    var lit := Command + " ";
    var text := pre + lit + (tok + post);
    var i := |pre|;
    var c := Capture(i + |lit|, i + |lit| + |tok|);
    assert text == (pre + lit) + tok + post;
    HasAtAfter(pre, lit, tok + post);
    HasAtAfter(pre + lit, tok, post);
    TokenAfter(pre + lit, tok, post);
    assert IsMatch(text, i, c);
    FlagAlternativeFails(pre, tok, post);
    forall d | IsMatch(text, i, d)
      ensures Prefers(c, d)
    {
      RunStopsAt(text, c.begin, c.end, d.end);
    }
    ResolveLeftmost(text, i, c);
  }

  /**
   Backtracking in context: `rustup run --install` followed by whitespace
   that is not a single space before a token yields the toolchain
   `--install`, the flag itself read as the `\S+` token.
   */
  lemma ResolveBareFlag(pre: string, post: string)
    requires post == [] || IsWhitespace(post[0])
    requires !(|post| > 1 && post[0] == ' ' && !IsWhitespace(post[1]))
    requires forall j, d :: 0 <= j < |pre| ==> !IsMatch(pre + (Command + " ") + ("--install" + post), j, d)
    ensures Resolve(Success(pre + (Command + " ") + ("--install" + post))) == "--install"
  {
    var lit := Command + " ";
    var tok := "--install";
    var text := pre + lit + (tok + post);
    var i := |pre|;
    var c := Capture(i + |lit|, i + |lit| + |tok|);
    assert text == (pre + lit) + tok + post;
    HasAtAfter(pre, lit, tok + post);
    HasAtAfter(pre + lit, tok, post);
    assert NonBlank(tok, 0, |tok|);
    TokenAfter(pre + lit, tok, post);
    assert IsMatch(text, i, c);
    if |post| > 1 {
      assert text[c.end + 1] == post[1];
    }
    forall d | IsMatch(text, i, d)
      ensures Prefers(c, d)
    {
      if d.begin == c.begin {
        RunStopsAt(text, c.begin, c.end, d.end);
      }
    }
    ResolveLeftmost(text, i, c);
  }

  /** A pinned version after `--install` is the toolchain. */
  lemma ExamplePinnedVersion()
    ensures Resolve(Success("rustup run --install 1.70.0 rustfmt")) == "1.70.0"
  {
    assert "rustup run --install 1.70.0 rustfmt" == "" + (Command + InstallFlag + " ") + ("1.70.0" + " rustfmt");
    assert NonBlank("1.70.0", 0, 6);
    ResolvePinnedVersion("", "1.70.0", " rustfmt");
  }

  /** Without the flag, the token after `rustup run ` is the toolchain. */
  lemma ExampleChannel()
    ensures Resolve(Success("rustup run nightly rustfmt")) == "nightly"
  {
    assert "rustup run nightly rustfmt" == "" + (Command + " ") + ("nightly" + " rustfmt");
    assert NonBlank("nightly", 0, 7);
    ResolveChannel("", "nightly", " rustfmt");
  }

  /** The flag followed by a line break is itself captured as the toolchain. */
  lemma ExampleBacktrack()
    ensures Resolve(Success("rustup run --install\nx")) == "--install"
  {
    assert "rustup run --install\nx" == "" + (Command + " ") + ("--install" + "\nx");
    ResolveBareFlag("", "\nx");
  }

  /** With two invocations in the configuration, the earlier one decides. */
  lemma ExampleEarliestWins()
    ensures Resolve(Success("rustup run nightly rustfmt" + "\nrustup run --install 1.70.0 rustfmt")) == "nightly"
  {
    var later := "\nrustup run --install 1.70.0 rustfmt";
    assert Command + " " == "rustup run ";
    assert "rustup run nightly rustfmt" + later
        == "" + (Command + " ") + ("nightly" + (" rustfmt" + later));
    assert NonBlank("nightly", 0, 7);
    ResolveChannel("", "nightly", " rustfmt" + later);
  }
}
