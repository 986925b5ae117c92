/**
  The texts of the panda chat server (A3/Server.py): the emoji and fact tables, the decoration of
  broadcast messages, the fallback name, the replies, and the classification of a received line
  into one of the three commands or ordinary chat.
 */
module ChatProtocol {

  /** `PANDA_EMOJIS` */
  const PandaEmojis: seq<string> := ["\U{1F43C}", "\U{1F38B}", "\U{1F43E}", "\U{1F33F}", "\U{1F43E}\U{1F43C}"]

  /** `PANDA_FACTS` */
  const PandaFacts: seq<string> := [
    "Pandas spend around 14 hours a day eating bamboo!",
    "Baby pandas are born pink and weigh only about 100 grams!",
    "A group of pandas is called an embarrassment!",
    "Pandas can swim and are excellent tree climbers!",
    "There are only about 1,800 giant pandas left in the wild!"
  ]

  /** A choice `random.choice` can make from either table (both have five entries). */
  type Choice = i: nat | i < 5

  /** The random choices one message may use: two emojis for a broadcast, a fact for `@bamboo`. */
  datatype Draw = Draw(left: Choice, right: Choice, fact: Choice)

  /** `f"{e1} {message} {e2}"` with the two drawn emojis. */
  function Decorate(message: string, d: Draw): string {
    PandaEmojis[d.left] + " " + message + " " + PandaEmojis[d.right]
  }

  /** The decorated text starts and ends with a panda emoji and carries the message intact between two spaces. */
  lemma DecorateFrames(message: string, d: Draw)
    ensures var s := Decorate(message, d); var n := |PandaEmojis[d.left]|;
      && s[..n] in PandaEmojis
      && s[n] == ' ' && s[n + 1..n + 1 + |message|] == message && s[n + 1 + |message|] == ' '
      && s[n + 2 + |message|..] in PandaEmojis
  {
    var s := Decorate(message, d);
    var n := |PandaEmojis[d.left]|;
    assert s == PandaEmojis[d.left] + [' '] + message + [' '] + PandaEmojis[d.right];
    assert s[..n] == PandaEmojis[d.left];
    assert s[n + 2 + |message|..] == PandaEmojis[d.right];
  }

  /** The name a client is registered under: what it sent first, or "MysteryPanda" when that was empty. */
  function DisplayName(received: string): (name: string)
    ensures name != []
    ensures received != [] ==> name == received
    ensures received == [] ==> name == "MysteryPanda"
  {
    if received == [] then "MysteryPanda" else received
  }

  /** `f"👋 Welcome, {panda_name}! Type @bamboo, @grove, or @leaves."` */
  function Welcome(name: string): string {
    "\U{1F44B} Welcome, " + name + "! Type @bamboo, @grove, or @leaves."
  }

  /** `f"{panda_name} has joined the Panda Chat!\n"` */
  function Joined(name: string): string {
    name + " has joined the Panda Chat!\n"
  }

  /** `f"{panda_name} has left the Panda Chat."` */
  function Farewell(name: string): string {
    name + " has left the Panda Chat."
  }

  /** `f"🌱 Panda Fact: {fact}\n"` */
  function FactReply(fact: string): string {
    "\U{1F331} Panda Fact: " + fact + "\n"
  }

  /** `f"{panda_name}: {msg}"`: the line is sent as received, surrounding whitespace included. */
  function ChatLine(name: string, line: string): string {
    name + ": " + line
  }

  /** `sep.join(names)` */
  function Join(names: seq<string>, sep: string): string
    decreases |names|
  {
    if names == [] then ""
    else if |names| == 1 then names[0]
    else names[0] + sep + Join(names[1..], sep)
  }

  /** `w` occurs in `s` at position `k`. */
  ghost predicate OccursAt(s: string, w: string, k: int) {
    0 <= k <= |s| - |w| && s[k..k + |w|] == w
  }

  /** Every joined name occurs in the joined text, at a position where it can be read off whole. */
  lemma {:induction false} JoinLists(names: seq<string>, sep: string, i: nat)
    requires i < |names|
    ensures exists k :: OccursAt(Join(names, sep), names[i], k)
    decreases i
  {
    var s := Join(names, sep);
    if i == 0 {
      assert OccursAt(s, names[0], 0);
    } else {
      JoinLists(names[1..], sep, i - 1);
      var t := Join(names[1..], sep);
      var k :| OccursAt(t, names[1..][i - 1], k);
      var off := |names[0]| + |sep|;
      assert s == names[0] + sep + t;
      assert s[off + k..off + k + |names[i]|] == t[k..k + |names[i]|];
      assert OccursAt(s, names[i], off + k);
    }
  }

  /** `f"Current Pandas in the grove: {user_list}\n"` with the names joined by ", ". */
  function GroveReply(names: seq<string>): string {
    "Current Pandas in the grove: " + Join(names, ", ") + "\n"
  }

  /** `str.isspace` for one character: the characters Python's `str.strip()` removes. */
  predicate IsSpace(c: char) {
    var n := c as int;
    || 9 <= n <= 13 || 0x1C <= n <= 0x20 || n == 0x85 || n == 0xA0 || n == 0x1680
    || 0x2000 <= n <= 0x200A || n == 0x2028 || n == 0x2029 || n == 0x202F || n == 0x205F || n == 0x3000
  }

  predicate AllSpace(s: string) {
    forall i :: 0 <= i < |s| ==> IsSpace(s[i])
  }

  /** `str.lstrip()`: the line without its leading whitespace. */
  function TrimLeft(s: string): string {
    if s != [] && IsSpace(s[0]) then TrimLeft(s[1..]) else s
  }

  /** `str.rstrip()`: the line without its trailing whitespace. */
  function TrimRight(s: string): string {
    if s != [] && IsSpace(s[|s| - 1]) then TrimRight(s[..|s| - 1]) else s
  }

  /** `str.strip()`: the line without its leading and trailing whitespace. */
  function Strip(s: string): string {
    TrimRight(TrimLeft(s))
  }

  /** `lstrip` keeps a suffix, drops only whitespace, and stops at the first other character. */
  lemma {:induction false} TrimLeftSuffix(s: string)
    ensures var t := TrimLeft(s);
      && |t| <= |s| && t == s[|s| - |t|..]
      && AllSpace(s[..|s| - |t|])
      && (t == [] || !IsSpace(t[0]))
    decreases |s|
  {
    if s != [] && IsSpace(s[0]) {
      TrimLeftSuffix(s[1..]);
      var t := TrimLeft(s[1..]);
      assert s[..|s| - |t|] == [s[0]] + s[1..][..|s| - 1 - |t|];
    }
  }

  /** `rstrip` keeps a prefix, drops only whitespace, and stops at the last other character. */
  lemma {:induction false} TrimRightPrefix(s: string)
    ensures var t := TrimRight(s);
      && |t| <= |s| && t == s[..|t|]
      && AllSpace(s[|t|..])
      && (t == [] || !IsSpace(t[|t| - 1]))
    decreases |s|
  {
    if s != [] && IsSpace(s[|s| - 1]) {
      TrimRightPrefix(s[..|s| - 1]);
      var t := TrimRight(s[..|s| - 1]);
      assert s[|t|..] == s[..|s| - 1][|t|..] + [s[|s| - 1]];
    }
  }

  /** `line` is `word` preceded by `i` whitespace characters and followed by nothing but whitespace. */
  ghost predicate PaddedAt(line: string, word: string, i: int) {
    && 0 <= i <= |line| - |word| && line[i..i + |word|] == word
    && AllSpace(line[..i]) && AllSpace(line[i + |word|..])
  }

  /** `line` is `word` with nothing but whitespace before and after it. */
  ghost predicate Padded(line: string, word: string) {
    exists i :: PaddedAt(line, word, i)
  }

  /** `strip` removes only surrounding whitespace, and all of it. */
  lemma StripFrames(s: string)
    ensures var t := Strip(s);
      Padded(s, t) && (t == [] || (!IsSpace(t[0]) && !IsSpace(t[|t| - 1])))
  {
    var u := TrimLeft(s);
    var t := TrimRight(u);
    TrimLeftSuffix(s);
    TrimRightPrefix(u);
    var i := |s| - |u|;
    assert s[i..i + |t|] == t;
    assert s[i + |t|..] == u[|t|..];
    assert PaddedAt(s, t, i);
    if t != [] {
      assert t[0] == u[0];
    }
  }

  lemma {:induction false} TrimLeftPadded(pre: string, u: string)
    requires AllSpace(pre) && (u == [] || !IsSpace(u[0]))
    ensures TrimLeft(pre + u) == u
    decreases |pre|
  {
    if pre != [] {
      assert (pre + u)[1..] == pre[1..] + u;
      TrimLeftPadded(pre[1..], u);
    } else {
      assert pre + u == u;
    }
  }

  lemma {:induction false} TrimRightPadded(u: string, post: string)
    requires AllSpace(post) && (u == [] || !IsSpace(u[|u| - 1]))
    ensures TrimRight(u + post) == u
    decreases |post|
  {
    if post != [] {
      assert (u + post)[..|u + post| - 1] == u + post[..|post| - 1];
      TrimRightPadded(u, post[..|post| - 1]);
    } else {
      assert u + post == u;
    }
  }

  /** Whitespace around a word whose ends are not whitespace is exactly what `strip` removes. */
  lemma StripPadded(pre: string, t: string, post: string)
    requires AllSpace(pre) && AllSpace(post)
    requires t == [] || (!IsSpace(t[0]) && !IsSpace(t[|t| - 1]))
    ensures Strip(pre + t + post) == t
  {
    if t == [] {
      assert pre + t + post == pre + post && AllSpace(pre + post);
      TrimLeftPadded(pre + post, []);
      assert pre + post + [] == pre + post;
      TrimRightPadded([], []);
    } else {
      assert pre + t + post == pre + (t + post);
      TrimLeftPadded(pre, t + post);
      TrimRightPadded(t, post);
    }
  }

  /** What a received line asks for. */
  datatype Command = Bamboo | Grove | Leaves | Chat

  /** The three commands that a word selects; a chat line has no word. */
  type CommandWord = cmd: Command | cmd != Chat witness Bamboo

  /** The text that selects each command. */
  function Word(cmd: CommandWord): string {
    match cmd
    case Bamboo => "@bamboo"
    case Grove => "@grove"
    case Leaves => "@leaves"
  }

  /** The chain `if msg.strip() == "@bamboo" ... elif ... else`. */
  function Classify(line: string): Command {
    var s := Strip(line);
    if s == "@bamboo" then Bamboo
    else if s == "@grove" then Grove
    else if s == "@leaves" then Leaves
    else Chat
  }

  /** A line is a command exactly when it is that command's word with surrounding whitespace. */
  lemma ClassifyCommand(line: string, cmd: CommandWord)
    ensures Classify(line) == cmd <==> Padded(line, Word(cmd))
  {
    var w := Word(cmd);
    assert !IsSpace(w[0]) && !IsSpace(w[|w| - 1]);
    if Padded(line, w) {
      var i :| PaddedAt(line, w, i);
      assert line == line[..i] + w + line[i + |w|..];
      StripPadded(line[..i], w, line[i + |w|..]);
    } else {
      StripFrames(line);
    }
  }

  /** A line is chat exactly when it is none of the three command words, whitespace aside. */
  lemma ClassifyChat(line: string)
    ensures Classify(line) == Chat <==> forall cmd: CommandWord :: !Padded(line, Word(cmd))
  {
    ClassifyCommand(line, Bamboo);
    ClassifyCommand(line, Grove);
    ClassifyCommand(line, Leaves);
    forall cmd: CommandWord ensures Classify(line) == Chat ==> !Padded(line, Word(cmd)) {
      ClassifyCommand(line, cmd);
    }
  }

  /** The empty read that means the connection closed is never a command. */
  lemma ClassifyEmpty()
    ensures Classify("") == Chat
  {
    StripPadded("", "", "");
  }
}
