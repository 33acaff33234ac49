/** Dropping a leading `<think>..</think>` block from a streamed answer (assistant.rs). */
module ThinkFilters {

  const OPEN_TAG: string := "<think>"
  const CLOSE_TAG: string := "</think>"

  /** Unicode white space, as the library's trimming counts it. */
  predicate Space(c: char) {
    var n := c as int;
    9 <= n <= 13 || n == 0x20 || n == 0x85 || n == 0xA0 || n == 0x1680 || 0x2000 <= n <= 0x200A
    || n == 0x2028 || n == 0x2029 || n == 0x202F || n == 0x205F || n == 0x3000
  }

  /** The 25 characters with the Unicode property White_Space. */
  const WHITE_SPACE: string :=
    "\t\n\U{0B}\U{0C}\r \U{85}\U{A0}\U{1680}\U{2000}\U{2001}\U{2002}\U{2003}\U{2004}\U{2005}\U{2006}\U{2007}"
    + "\U{2008}\U{2009}\U{200A}\U{2028}\U{2029}\U{202F}\U{205F}\U{3000}"

  lemma SpaceIsWhiteSpace(c: char)
    ensures Space(c) <==> c in WHITE_SPACE
  {
    if Space(c) {
      var n := c as int;
      var k := if n <= 13 then n - 9 else if n == 0x20 then 5 else if n == 0x85 then 6 else if n == 0xA0 then 7
        else if n == 0x1680 then 8 else if n <= 0x200A then n - 0x2000 + 9 else if n == 0x2028 then 20
        else if n == 0x2029 then 21 else if n == 0x202F then 22 else if n == 0x205F then 23 else 24;
      assert WHITE_SPACE[k] == c;
    }
  }

  function TrimStart(s: string): string {
    if s != "" && Space(s[0]) then TrimStart(s[1..]) else s
  }

  function TrimEnd(s: string): string {
    if s != "" && Space(s[|s| - 1]) then TrimEnd(s[..|s| - 1]) else s
  }

  function Trim(s: string): string {
    TrimEnd(TrimStart(s))
  }

  predicate At(s: string, i: nat, tag: string) {
    i + |tag| <= |s| && s[i..i + |tag|] == tag
  }

  /** Where `tag` first occurs at or after `i`, or -1. */
  function Find(s: string, tag: string, i: nat): (k: int)
    requires i <= |s|
    ensures k == -1 || i <= k <= |s|
    ensures k >= 0 ==> At(s, k, tag)
    ensures forall j :: i <= j && (k == -1 || j < k) ==> !At(s, j, tag)
    decreases |s| - i
  {
    if At(s, i, tag) then i else if i < |s| then Find(s, tag, i + 1) else -1
  }

  /** The text could still turn out to open a block: nothing but white space, or a fragment of the tag. */
  predicate Undecided(s: string) {
    var t := TrimStart(s);
    t == "" || (|t| < 7 && t <= OPEN_TAG)
  }

  predicate OpensBlock(s: string) {
    OPEN_TAG <= TrimStart(s)
  }

  /** What a reply should show: its leading block dropped, an unclosed block or a fragment kept, otherwise itself. */
  function OneShot(s: string): string {
    if Undecided(s) then Trim(s)
    else if !OpensBlock(s) then TrimStart(s)
    else
      var k := Find(s, CLOSE_TAG, 0);
      if k == -1 then Trim(s) else TrimStart(s[k + |CLOSE_TAG|..])
  }

  datatype Mode = Start | Thinking | Answer

  datatype Filter = Filter(held: string, mode: Mode)

  const NEW: Filter := Filter("", Start)

  /** One piece of the stream: the filter after it, and what to show now. */
  function Pushed(f: Filter, piece: string): (Filter, string) {
    if f.mode == Answer then (f, piece)
    else
      var held := f.held + piece;
      if f.mode == Start && Undecided(held) then (Filter(held, Start), "")
      else if f.mode == Start && !OpensBlock(held) then (Filter("", Answer), TrimStart(held))
      else
        var k := Find(held, CLOSE_TAG, 0);
        if k == -1 then (Filter(held, Thinking), "")
        else (Filter("", Answer), TrimStart(held[k + |CLOSE_TAG|..]))
  }

  function Finished(f: Filter): string {
    if f.mode == Answer then "" else Trim(f.held)
  }

  /** Everything shown for a stream, from a filter on. */
  function Shown(f: Filter, pieces: seq<string>): string
    decreases |pieces|
  {
    if pieces == [] then Finished(f)
    else
      var (f', out) := Pushed(f, pieces[0]);
      out + Shown(f', pieces[1..])
  }

  function Joined(pieces: seq<string>): string {
    if pieces == [] then "" else pieces[0] + Joined(pieces[1..])
  }

  lemma {:induction false} TrimStartSuffix(s: string)
    ensures |TrimStart(s)| <= |s| && TrimStart(s) == s[|s| - |TrimStart(s)|..]
    ensures TrimStart(s) != "" ==> !Space(TrimStart(s)[0])
    ensures forall i :: 0 <= i < |s| - |TrimStart(s)| ==> Space(s[i])
  {
    if s != "" && Space(s[0]) {
      TrimStartSuffix(s[1..]);
      var d := |s| - |TrimStart(s)|;
      assert s[1..][d - 1..] == s[d..];
      forall i | 0 <= i < d ensures Space(s[i]) {
        assert i > 0 ==> s[i] == s[1..][i - 1];
      }
    }
  }

  lemma {:induction false} TrimStartAppend(a: string, b: string)
    ensures TrimStart(a + b) == if TrimStart(a) == "" then TrimStart(b) else TrimStart(a) + b
  {
    if a == "" {
      assert a + b == b;
    } else if Space(a[0]) {
      assert (a + b)[1..] == a[1..] + b;
      TrimStartAppend(a[1..], b);
    }
  }

  lemma {:induction false} TrimStartTwice(s: string)
    ensures TrimStart(TrimStart(s)) == TrimStart(s)
  {
    TrimStartSuffix(s);
  }

  lemma {:induction false} TrimStartOfTrimEnd(s: string)
    requires s == "" || !Space(s[0])
    ensures TrimStart(TrimEnd(s)) == TrimEnd(s)
    ensures TrimEnd(s) == "" || !Space(TrimEnd(s)[0])
  {
    if s != "" && Space(s[|s| - 1]) {
      assert s[..|s| - 1] == "" || s[..|s| - 1][0] == s[0];
      TrimStartOfTrimEnd(s[..|s| - 1]);
    }
  }

  lemma OneShotTrimmed(s: string)
    ensures TrimStart(OneShot(s)) == OneShot(s)
  {
    TrimStartSuffix(s);
    TrimStartTwice(s);
    TrimStartOfTrimEnd(TrimStart(s));
    var k := Find(s, CLOSE_TAG, 0);
    if k >= 0 {
      TrimStartTwice(s[k + |CLOSE_TAG|..]);
    }
  }

  /** Once it is clear that a text opens no block, or that it does, more text does not change that. */
  lemma DecidedForGood(a: string, b: string)
    requires !Undecided(a)
    ensures !Undecided(a + b) && (OpensBlock(a + b) <==> OpensBlock(a))
    ensures TrimStart(a + b) == TrimStart(a) + b
  {
    TrimStartAppend(a, b);
    var t := TrimStart(a);
    if |t| < 7 {
      FragmentOfTag(t, b);
    } else {
      assert (t + b)[..7] == t[..7];
    }
  }

  lemma FragmentOfTag(t: string, b: string)
    requires |t| <= 7
    ensures t + b <= OPEN_TAG || OPEN_TAG <= t + b ==> t <= OPEN_TAG
  {
    assert (t + b)[..|t|] == t;
    if OPEN_TAG <= t + b {
      assert OPEN_TAG == (t + b)[..7];
    }
  }

  /** The first closing tag stays where it was found. */
  lemma FindAppend(a: string, b: string, tag: string)
    requires Find(a, tag, 0) >= 0
    ensures Find(a + b, tag, 0) == Find(a, tag, 0)
  {
    var k := Find(a, tag, 0);
    assert (a + b)[k..k + |tag|] == a[k..k + |tag|];
    assert At(a + b, k, tag);
    forall j | 0 <= j < k ensures !At(a + b, j, tag) {
      assert !At(a, j, tag);
      assert j + |tag| <= |a| ==> (a + b)[j..j + |tag|] == a[j..j + |tag|];
    }
  }

  lemma {:induction false} AnswerPassesThrough(pieces: seq<string>)
    ensures Shown(Filter("", Answer), pieces) == Joined(pieces)
  {
    if pieces != [] {
      AnswerPassesThrough(pieces[1..]);
    }
  }

  /** What the filter holds fits its mode. */
  predicate Fits(f: Filter) {
    match f.mode
    case Start => Undecided(f.held)
    case Thinking => !Undecided(f.held) && OpensBlock(f.held) && Find(f.held, CLOSE_TAG, 0) == -1
    case Answer => false
  }

  /** The block closed in the middle of a stream: what was shown up to the tag's piece, and the rest as it comes. */
  predicate ClosesThenSpace(held: string, rest: string) {
    OpensBlock(held) && Find(held, CLOSE_TAG, 0) >= 0
    && TrimStart(held[Find(held, CLOSE_TAG, 0) + |CLOSE_TAG|..]) == "" && rest != "" && Space(rest[0])
  }

  /** Some cut of the stream falls between the closing tag and white space that follows it. */
  predicate CutBeforeSpace(held: string, pieces: seq<string>)
    decreases |pieces|
  {
    pieces != [] &&
    var h := held + pieces[0];
    if Undecided(h) || (OpensBlock(h) && Find(h, CLOSE_TAG, 0) == -1) then CutBeforeSpace(h, pieces[1..])
    else ClosesThenSpace(h, Joined(pieces[1..]))
  }

  lemma SplitClose(h: string, rest: string)
    requires !Undecided(h) && OpensBlock(h) && Find(h, CLOSE_TAG, 0) >= 0
    ensures var k := Find(h, CLOSE_TAG, 0);
      && OneShot(h + rest) == TrimStart(h[k + |CLOSE_TAG|..] + rest)
      && TrimStart(TrimStart(h[k + |CLOSE_TAG|..]) + rest) == OneShot(h + rest)
      && (TrimStart(h[k + |CLOSE_TAG|..]) + rest == OneShot(h + rest) <==> !ClosesThenSpace(h, rest))
  {
    var k := Find(h, CLOSE_TAG, 0);
    DecidedForGood(h, rest);
    FindAppend(h, rest, CLOSE_TAG);
    var after := h[k + |CLOSE_TAG|..];
    assert (h + rest)[k + |CLOSE_TAG|..] == after + rest;
    TrimStartAppend(after, rest);
    TrimStartTwice(after);
    TrimStartAppend(TrimStart(after), rest);
    TrimStartSuffix(rest);
    if TrimStart(after) == "" {
      assert TrimStart(after) + rest == rest;
    }
  }

  /**
   * Filtering does not depend on how the reply was cut: what is shown is, up to leading white space, what the whole
   * reply at once would show; and exactly that unless a cut separates the closing tag from white space after it.
   */
  lemma {:induction false} ChunkingIrrelevant(f: Filter, pieces: seq<string>)
    requires Fits(f)
    ensures TrimStart(Shown(f, pieces)) == OneShot(f.held + Joined(pieces))
    ensures Shown(f, pieces) == OneShot(f.held + Joined(pieces)) <==> !CutBeforeSpace(f.held, pieces)
    decreases |pieces|
  {
    OneShotTrimmed(f.held + Joined(pieces));
    if pieces == [] {
      assert f.held + "" == f.held;
    } else {
      var h, rest := f.held + pieces[0], pieces[1..];
      assert f.held + Joined(pieces) == h + Joined(rest);
      if f.mode == Thinking {
        DecidedForGood(f.held, pieces[0]);
      }
      var (f', out) := Pushed(f, pieces[0]);
      if f'.mode != Answer {
        assert "" + Shown(f', rest) == Shown(f', rest);
        ChunkingIrrelevant(f', rest);
      } else {
        AnswerPassesThrough(rest);
        DecidedForGood(h, Joined(rest));
        if OpensBlock(h) {
          SplitClose(h, Joined(rest));
        } else {
          assert out + Joined(rest) == TrimStart(h + Joined(rest));
          TrimStartTwice(h + Joined(rest));
        }
      }
    }
  }

  lemma NewFits()
    ensures Fits(NEW) && NEW.held == ""
  {
  }

  /** For a whole reply, from its first piece on. */
  lemma StreamIsOneShot(pieces: seq<string>)
    ensures TrimStart(Shown(NEW, pieces)) == OneShot(Joined(pieces))
    ensures Shown(NEW, pieces) == OneShot(Joined(pieces)) <==> !CutBeforeSpace("", pieces)
  {
    NewFits();
    ChunkingIrrelevant(NEW, pieces);
    assert NEW.held + Joined(pieces) == Joined(pieces);
  }

  lemma FindsClose(s: string)
    requires "<think></think>" <= s
    ensures Find(s, CLOSE_TAG, 0) == 7 && OpensBlock(s) && !Undecided(s)
  {
    assert s[..15] == "<think></think>";
    assert s[7..15] == s[..15][7..] == CLOSE_TAG;
    assert At(s, 7, CLOSE_TAG);
    forall j | 0 <= j < 7 ensures !At(s, j, CLOSE_TAG) {
      assert s[j..j + 8][1] == s[j + 1] == s[..15][j + 1];
    }
    assert s[..7] == OPEN_TAG;
  }

  lemma CutAfterBlock(block: string, rest: string)
    requires |block| == 15 && "<think></think>" <= block
    ensures Shown(NEW, [block, rest]) == rest && OneShot(block + rest) == TrimStart(rest)
  {
    FindsClose(block);
    assert (block + rest)[..15] == block[..15];
    FindsClose(block + rest);
    assert "" + block == block && block[15..] == "" && (block + rest)[15..] == rest;
    assert Pushed(NEW, block) == (Filter("", Answer), "");
    AnswerPassesThrough([rest]);
    assert [block, rest][1..] == [rest] && Joined([rest]) == rest + "" == rest;
    assert "" + rest == rest;
  }

  /** The two can differ: cut right behind the closing tag, the blank before the answer is shown. */
  lemma CutShowsSpace()
    ensures Shown(NEW, ["<think></think>", " hi"]) == " hi" && OneShot("<think></think>" + " hi") == "hi"
  {
    CutAfterBlock("<think></think>", " hi");
    assert " hi"[1..] == "hi";
  }

  /** The definition of the one-shot result is what the filter shows for the reply in one piece. */
  lemma OneShotIsOnePiece(s: string)
    ensures Shown(NEW, [s]) == OneShot(s)
  {
    assert Joined([s]) == s + Joined([]);
    assert s + "" == s && "" + s == s;
    StreamIsOneShot([s]);
  }

  /** `t` is `s` without the white space it starts with. */
  predicate Stripped(s: string, t: string) {
    && |t| <= |s| && t == s[|s| - |t|..] && (t == "" || !Space(t[0]))
    && forall i :: 0 <= i < |s| - |t| ==> Space(s[i])
  }

  predicate AllSpace(s: string) {
    forall i :: 0 <= i < |s| ==> Space(s[i])
  }

  lemma {:induction false} TrimmedAway(s: string)
    requires AllSpace(s)
    ensures TrimStart(s) == ""
  {
    if s != "" {
      TrimmedAway(s[1..]);
    }
  }

  lemma FindIs(s: string, tag: string, k: nat)
    requires k <= |s| && At(s, k, tag) && forall j :: 0 <= j < k ==> !At(s, j, tag)
    ensures Find(s, tag, 0) == k
  {
  }

  /** The text of a reply that thinks first. */
  function Thought(lead: string, thought: string, rest: string): string {
    lead + "<think>" + (thought + "</think>") + rest
  }

  lemma ThoughtAt(lead: string, thought: string, rest: string, j: nat)
    requires AllSpace(lead) && j < |lead| + 7 + |thought|
    requires forall i :: 0 <= i < |thought| ==> !At(thought + "</think>", i, "</think>")
    ensures !At(Thought(lead, thought, rest), j, "</think>")
  {
    var s := Thought(lead, thought, rest);
    AtStarts(s, j);
    if j < |lead| {
      assert Space(s[j]);
    } else if j < |lead| + 7 {
      assert s[j] == "<think>"[j - |lead|] && s[|lead| + 1] == 't';
    } else {
      var i := j - |lead| - 7;
      assert s[j..j + 8] == (thought + "</think>")[i..i + 8];
      assert !At(thought + "</think>", i, "</think>");
    }
  }

  lemma AtStarts(s: string, j: nat)
    ensures At(s, j, "</think>") ==> j + 1 < |s| && s[j] == '<' && s[j + 1] == '/'
  {
    if At(s, j, "</think>") {
      assert s[j..j + 8][0] == s[j] && s[j..j + 8][1] == s[j + 1];
    }
  }

  lemma ThoughtCloses(lead: string, thought: string, rest: string)
    requires AllSpace(lead)
    requires forall i :: 0 <= i < |thought| ==> !At(thought + "</think>", i, "</think>")
    ensures var (s, k) := (Thought(lead, thought, rest), |lead| + 7 + |thought|);
      Find(s, "</think>", 0) == k && k + 8 <= |s| && s[k + 8..] == rest
  {
    var s, k := Thought(lead, thought, rest), |lead| + 7 + |thought|;
    assert s[k..k + 8] == "</think>" && s[k + 8..] == rest;
    forall j | 0 <= j < k ensures !At(s, j, "</think>") {
      ThoughtAt(lead, thought, rest, j);
    }
    hide AllSpace, Find;
    FindIs(s, "</think>", k);
  }

  lemma ThoughtOpens(lead: string, thought: string, rest: string)
    requires AllSpace(lead)
    ensures !Undecided(Thought(lead, thought, rest)) && OpensBlock(Thought(lead, thought, rest))
  {
    var block := "<think>" + (thought + "</think>") + rest;
    assert Thought(lead, thought, rest) == lead + block;
    TrimmedAway(lead);
    TrimStartAppend(lead, block);
    assert block[0] == '<' && block[..7] == "<think>";
  }

  /** A reply that thinks first shows what comes after its block, without the white space in between. */
  lemma BlockIsDropped(lead: string, thought: string, rest: string)
    requires AllSpace(lead)
    requires forall i :: 0 <= i < |thought| ==> !At(thought + "</think>", i, "</think>")
    ensures Stripped(rest, OneShot(Thought(lead, thought, rest)))
  {
    hide Undecided, OpensBlock, Thought, Find, TrimStart, At, AllSpace;
    ThoughtOpens(lead, thought, rest);
    ThoughtCloses(lead, thought, rest);
    TrimStartSuffix(rest);
  }

  /** Any other reply is shown whole, without the white space it starts with. */
  lemma OthersAreKept(lead: string, text: string)
    requires AllSpace(lead) && text != "" && !Space(text[0]) && !("<think>" <= text) && !(text <= "<think>")
    ensures OneShot(lead + text) == text
  {
    TrimmedAway(lead);
    TrimStartAppend(lead, text);
  }

  /** `t` is `s` without the white space on either side. */
  ghost predicate Trimmed(s: string, t: string) {
    && (t == "" || (!Space(t[0]) && !Space(t[|t| - 1])))
    && exists a, b :: AllSpace(a) && AllSpace(b) && s == a + t + b
  }

  lemma {:induction false} TrimEndKeeps(s: string) returns (b: string)
    ensures AllSpace(b) && s == TrimEnd(s) + b
    ensures TrimEnd(s) == "" || (!Space(TrimEnd(s)[|TrimEnd(s)| - 1]) && TrimEnd(s)[0] == s[0])
  {
    if s != "" && Space(s[|s| - 1]) {
      var n := |s| - 1;
      var c := TrimEndKeeps(s[..n]);
      b := c + [s[n]];
    } else {
      b := "";
    }
  }

  lemma OneShotOfRest(lead: string, text: string)
    requires AllSpace(lead) && (text == "" || !Space(text[0]))
    requires text <= "<think>" || ("<think>" <= text && forall i: nat :: !At(lead + text, i, "</think>"))
    ensures OneShot(lead + text) == TrimEnd(text)
  {
    TrimmedAway(lead);
    TrimStartAppend(lead, text);
    assert TrimStart(lead + text) == text;
    hide TrimStart, TrimEnd, Space;
    if text == "<think>" {
      OpeningIsNotClosed(lead);
    }
  }

  /**
   * What never turns out to be an answer is shown as it is, less the white space around it: a beginning of the opening
   * tag, or a block that is not closed.
   */
  lemma RestIsTrimmed(lead: string, text: string)
    requires AllSpace(lead) && (text == "" || !Space(text[0]))
    requires text <= "<think>" || ("<think>" <= text && forall i: nat :: !At(lead + text, i, "</think>"))
    ensures Trimmed(text, OneShot(lead + text))
  {
    OneShotOfRest(lead, text);
    hide OneShot, TrimStart;
    var b := TrimEndKeeps(text);
    assert AllSpace("") && text == "" + TrimEnd(text) + b;
  }

  lemma OpeningIsNotClosed(lead: string)
    requires AllSpace(lead)
    ensures Find(lead + "<think>", CLOSE_TAG, 0) == -1
  {
    var s := lead + "<think>";
    forall i: nat ensures !At(s, i, "</think>") {
      AtStarts(s, i);
      if i < |lead| {
        assert Space(s[i]);
      } else if i < |s| {
        assert s[i] == "<think>"[i - |lead|] && s[|lead| + 1] == 't';
      }
    }
  }

  class ThinkFilter {
    var held: string
    var mode: Mode

    constructor ()
      ensures St() == NEW
    {
      held, mode := "", Start;
    }

    function St(): Filter
      reads this
    {
      Filter(held, mode)
    }

    /** One piece in; what can be shown of it, and of what was held, comes out. */
    method Push(piece: string) returns (shown: string)
      modifies this
      ensures (St(), shown) == Pushed(old(St()), piece)
    {
      if mode == Answer {
        return piece;
      }
      held := held + piece;
      if mode == Start {
        var t := TrimStart(held);
        if t == "" || (|t| < 7 && t <= OPEN_TAG) {
          return "";
        }
        if !(OPEN_TAG <= t) {
          mode := Answer;
          shown := TrimStart(held);
          held := "";
          return;
        }
        mode := Thinking;
      }
      var k := Find(held, CLOSE_TAG, 0);
      if k == -1 {
        return "";
      }
      shown := TrimStart(held[k + |CLOSE_TAG|..]);
      held, mode := "", Answer;
    }

    /** The end of the stream: whatever is held back comes out, trimmed. */
    method Finish() returns (shown: string)
      modifies this`held
      ensures shown == Finished(old(St())) && mode == old(mode)
      ensures mode != Answer ==> held == ""
    {
      if mode == Answer {
        return "";
      }
      shown := Trim(held);
      held := "";
    }
  }
}
