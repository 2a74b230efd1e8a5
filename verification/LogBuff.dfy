/** The log buffer of common/cmd_log.c: messages get a level prefix at each line start and go
    into a ring, in one of two layouts. */
module LogBuff {
  import opened CText
  import opened Arithmetic

  const LOGBUFF_LEN: int := 16384
  const DEFAULT_LEVEL: char := '4'
  const NUL: char := 0 as char

  // ---------- the stream ----------

  /** A line that brings its own level, as in "<3>". */
  predicate Tagged(s: string) { |s| >= 3 && s[0] == '<' && '0' <= s[1] <= '7' && s[2] == '>' }

  function Prefix(): string { ['<', DEFAULT_LEVEL, '>'] }

  /** What a message adds to the log; `start` says that the log is at the start of a line. */
  function Text(start: bool, s: string): (r: string)
    ensures |r| >= |s|
    decreases |s|
  {
    if s == "" then ""
    else (if start && !Tagged(s) then Prefix() else "") + [s[0]] + Text(s[0] == '\n', s[1..])
  }

  /** Whether the log is at the start of a line after a message. */
  function After(start: bool, s: string): bool { if s == "" then start else s[|s| - 1] == '\n' }

  lemma {:induction false} TextHead(s: string)
    requires s != "" && !Tagged(s)
    ensures Text(true, s) == Prefix() + Text(false, s)
  {
    hide Prefix;
    assert Text(true, s) == Prefix() + [s[0]] + Text(s[0] == '\n', s[1..]);
  }

  lemma {:induction false} TextMid(c: char, s: string)
    requires c != '\n'
    ensures Text(false, [c] + s) == [c] + Text(false, s)
  {
    assert ([c] + s)[1..] == s;
  }

  lemma {:induction false} PrefixMid(s: string)
    ensures Text(false, Prefix() + s) == Prefix() + Text(false, s)
  {
    hide Text;
    TextMid('>', s);
    TextMid(DEFAULT_LEVEL, ['>'] + s);
    TextMid('<', [DEFAULT_LEVEL] + (['>'] + s));
    assert Prefix() + s == ['<'] + ([DEFAULT_LEVEL] + (['>'] + s));
    assert Prefix() + Text(false, s) == ['<'] + ([DEFAULT_LEVEL] + (['>'] + Text(false, s)));
  }

  lemma {:induction false} TextStart(s: string)
    requires s != "" && !Tagged(s)
    ensures Text(true, s) == Text(false, Prefix() + s)
  {
    hide Text, Prefix;
    TextHead(s);
    PrefixMid(s);
  }

  lemma {:induction false} TextTagged(s: string)
    requires Tagged(s)
    ensures Text(true, s) == Text(false, s)
  {
  }

  lemma {:induction false} AfterRest(start: bool, s: string)
    requires s != ""
    ensures After(start, s) == After(s[0] == '\n', s[1..])
  {
  }

  // ---------- one line ----------

  const LEVELS: seq<string> := ["<0>", "<1>", "<2>", "<3>", "<4>", "<5>", "<6>", "<7>"]

  /** A line that begins with a level. */
  predicate OwnLevel(line: string) { |line| >= 3 && line[..3] in LEVELS }

  lemma TagsAreLevels(s: string)
    ensures Tagged(s) <==> OwnLevel(s)
  {
    if Tagged(s) {
      assert LEVELS[s[1] as int - '0' as int] == s[..3];
    }
  }

  lemma OwnLevelOfLine(line: string, rest: string)
    requires '\n' !in line
    ensures OwnLevel(line + "\n" + rest) <==> OwnLevel(line)
  {
    TagsAreLevels(line);
    TagsAreLevels(line + "\n" + rest);
    assert |line| < 3 ==> (line + "\n" + rest)[|line|] == '\n';
    assert |line| >= 3 ==> (line + "\n" + rest)[..3] == line[..3];
  }

  lemma {:induction false} InsideLine(line: string, more: string)
    requires '\n' !in line
    ensures Text(false, line + more) == line + Text(false, more)
  {
    if line == "" {
      assert line + more == more;
    } else {
      assert line + more == [line[0]] + (line[1..] + more);
      TextMid(line[0], line[1..] + more);
      InsideLine(line[1..], more);
      assert line + Text(false, more) == [line[0]] + (line[1..] + Text(false, more));
    }
  }

  lemma {:induction false} FirstLine(start: bool, s: string)
    requires s != ""
    ensures Text(start, s) == (if start && !OwnLevel(s) then "<4>" else "") + Text(false, s)
  {
    TagsAreLevels(s);
    assert Prefix() == "<4>";
    if start && !Tagged(s) {
      TextHead(s);
    } else if start {
      TextTagged(s);
    }
  }

  lemma {:induction false} LineFeed(rest: string)
    ensures Text(false, "\n" + rest) == "\n" + Text(true, rest)
  {
    assert ("\n" + rest)[1..] == rest;
  }

  lemma NoText()
    ensures Text(true, "") == "" && Text(false, "") == ""
  {
  }

  /** How a line is logged: at a line start it gets level 4 unless it begins with a level, the rest
      of a line that was begun goes on as it is, and what follows the line feed is a new line. */
  lemma {:induction false} LineLogged(start: bool, line: string, rest: string)
    requires '\n' !in line
    ensures var prefix := if start && !OwnLevel(line) then "<4>" else "";
      && Text(start, line) == (if line == "" then "" else prefix + line)
      && Text(start, line + "\n" + rest) == prefix + line + "\n" + Text(true, rest)
  {
    hide Text, OwnLevel;
    var s := line + "\n" + rest;
    OwnLevelOfLine(line, rest);
    FirstLine(start, s);
    assert s == line + ("\n" + rest);
    InsideLine(line, "\n" + rest);
    LineFeed(rest);
    if line != "" {
      FirstLine(start, line);
      InsideLine(line, "");
      assert line + "" == line;
    }
    NoText();
  }

  // ---------- several messages ----------

  /** Index i is at a line start where a line brings its own level. */
  predicate TagAt(start: bool, text: string, i: nat) {
    i < |text| && (if i == 0 then start else text[i - 1] == '\n') && Tagged(text[i..])
  }

  /** A boundary at index b of a text falls inside a tag at a line start. */
  predicate CutAt(start: bool, text: string, b: nat)
    requires b <= |text|
  {
    exists i | 0 <= i < b :: b < i + 3 && TagAt(start, text, i)
  }

  lemma TagAtRest(start: bool, text: string, i: nat)
    requires text != ""
    ensures i > 0 ==> TagAt(start, text, i) == TagAt(text[0] == '\n', text[1..], i - 1)
    ensures TagAt(start, text, 0) == (start && Tagged(text))
  {
    assert text[0..] == text;
    if 0 < i < |text| {
      assert text[i..] == text[1..][i - 1..];
    }
  }

  lemma TagAtExtends(start: bool, text: string, more: string, i: nat)
    ensures TagAt(start, text, i) ==> TagAt(start, text + more, i)
    ensures TagAt(start, text + more, i) && i + 3 <= |text| ==> TagAt(start, text, i)
  {
    if i < |text| {
      assert (text + more)[i..] == text[i..] + more;
    }
  }

  lemma {:induction false} NothingBefore(start: bool, t: string)
    ensures Text(start, "") == "" && After(start, "") == start && !CutAt(start, t, 0)
  {
  }

  /** Both sides of the comparison behind their first characters h and g. */
  lemma ConcatStep(h: string, g: string, whole: string, first: string, second: string)
    requires h == g || |h| < |g|
    requires whole == first + second || |whole| < |first| + |second|
    ensures if h == g && whole == first + second then h + whole == (g + first) + second
            else |h + whole| < |g + first| + |second|
  {
    assert (h + first) + second == h + (first + second);
  }

  /** What is logged for the first character of a message. */
  function Head(start: bool, s: string): string
    requires s != ""
  {
    (if start && !Tagged(s) then Prefix() else "") + [s[0]]
  }

  lemma HeadOf(start: bool, s: string, st: string)
    requires s != "" && s <= st
    ensures if start && |s| < 3 && Tagged(st) then |Head(start, st)| < |Head(start, s)|
            else Head(start, st) == Head(start, s)
  {
  }

  lemma TextUnfolds(start: bool, s: string)
    requires s != ""
    ensures Text(start, s) == Head(start, s) + Text(s[0] == '\n', s[1..])
  {
  }

  lemma CutRest(start: bool, text: string, b: nat)
    requires 0 < b <= |text|
    ensures CutAt(start, text, b) <==> CutAt(text[0] == '\n', text[1..], b - 1) || (start && b < 3 && Tagged(text))
  {
    hide Tagged, TagAt;
    var u := text[1..];
    forall i: nat | i < b
      ensures i > 0 ==> TagAt(start, text, i) == TagAt(text[0] == '\n', u, i - 1)
      ensures TagAt(start, text, 0) == (start && Tagged(text))
    {
      TagAtRest(start, text, i);
    }
    TagAtRest(start, text, 0);
    if CutAt(text[0] == '\n', u, b - 1) {
      var i: nat :| i < b - 1 < i + 3 && TagAt(text[0] == '\n', u, i);
      assert TagAt(start, text, i + 1);
    }
  }

  /** Two messages in a row log what one message would, unless the boundary cuts a tag. */
  lemma {:induction false} TextConcat(start: bool, s: string, t: string)
    ensures if CutAt(start, s + t, |s|) then |Text(start, s + t)| < |Text(start, s)| + |Text(After(start, s), t)|
            else Text(start, s + t) == Text(start, s) + Text(After(start, s), t)
    ensures After(start, s + t) == After(After(start, s), t)
    decreases |s|
  {
    hide Text, CutAt, Head, Tagged, After;
    if s == "" {
      assert s + t == t;
      NothingBefore(start, t);
    } else {
      var u, st := s[1..], s + t;
      assert st[1..] == u + t && st[0] == s[0];
      TextConcat(s[0] == '\n', u, t);
      CutRest(start, s + t, |s|);
      AfterRest(start, s);
      AfterRest(start, st);
      TextUnfolds(start, s);
      TextUnfolds(start, st);
      HeadOf(start, s, st);
      ConcatStep(Head(start, st), Head(start, s),
                 Text(s[0] == '\n', u + t), Text(s[0] == '\n', u), Text(After(start, s), t));
    }
  }

  function Joined(messages: seq<string>): string {
    if messages == [] then "" else Joined(messages[..|messages| - 1]) + messages[|messages| - 1]
  }

  /** What a run of messages adds to the log. */
  function Logged(start: bool, messages: seq<string>): string {
    if messages == [] then ""
    else
      var rest := messages[..|messages| - 1];
      Logged(start, rest) + Text(After(start, Joined(rest)), messages[|messages| - 1])
  }

  /** The end of the first k messages cuts a tag of the text. */
  predicate CutBy(start: bool, messages: seq<string>, k: nat, text: string)
    requires k <= |messages|
  {
    |Joined(messages[..k])| <= |text| && CutAt(start, text, |Joined(messages[..k])|)
  }

  /** A message boundary falls inside a tag. */
  predicate TagCut(start: bool, messages: seq<string>) {
    exists k | 0 <= k < |messages| :: CutBy(start, messages, k, Joined(messages))
  }

  lemma {:induction false} JoinedPrefix(messages: seq<string>, k: nat)
    requires k <= |messages|
    ensures Joined(messages[..k]) <= Joined(messages)
  {
    if k < |messages| {
      var rest := messages[..|messages| - 1];
      JoinedPrefix(rest, k);
      assert rest[..k] == messages[..k];
    } else {
      assert messages[..k] == messages;
    }
  }

  /** A text that goes on: a boundary within it cuts a tag as before, or that tag runs on. */
  lemma CutExtends(start: bool, text: string, more: string, b: nat)
    requires b <= |text|
    ensures CutAt(start, text, b) ==> CutAt(start, text + more, b)
    ensures CutAt(start, text + more, b) ==> CutAt(start, text, b) || CutAt(start, text + more, |text|)
  {
    hide TagAt;
    forall i: nat
      ensures TagAt(start, text, i) ==> TagAt(start, text + more, i)
      ensures TagAt(start, text + more, i) && i + 3 <= |text| ==> TagAt(start, text, i)
    {
      TagAtExtends(start, text, more, i);
    }
  }

  lemma {:induction false} JoinedNext(rest: seq<string>, m: string)
    ensures Joined(rest + [m]) == Joined(rest) + m
  {
    assert (rest + [m])[..|rest|] == rest;
  }

  lemma {:induction false} TagCutNext(start: bool, rest: seq<string>, m: string)
    ensures TagCut(start, rest + [m]) <==> TagCut(start, rest) || CutAt(start, Joined(rest) + m, |Joined(rest)|)
  {
    hide CutAt, Joined;
    var messages, text := rest + [m], Joined(rest);
    JoinedNext(rest, m);
    assert messages[..|rest|] == rest;
    forall k | 0 <= k < |rest|
      ensures messages[..k] == rest[..k]
      ensures CutBy(start, rest, k, text) ==> CutBy(start, messages, k, text + m)
      ensures CutBy(start, messages, k, text + m) ==> CutBy(start, rest, k, text) || CutAt(start, text + m, |text|)
    {
      assert messages[..k] == rest[..k];
      JoinedPrefix(rest, k);
      CutExtends(start, text, m, |Joined(rest[..k])|);
    }
    assert CutBy(start, messages, |rest|, text + m) <==> CutAt(start, text + m, |text|);
  }

  lemma {:induction false} LoggedNext(start: bool, rest: seq<string>, m: string)
    ensures Logged(start, rest + [m]) == Logged(start, rest) + Text(After(start, Joined(rest)), m)
  {
    assert (rest + [m])[..|rest|] == rest;
  }

  /** A run of messages logs what one long message would, exactly if no boundary cuts a tag:
      a line that continues over several messages gets one prefix. */
  lemma {:induction false} LoggedIsText(start: bool, messages: seq<string>)
    ensures if TagCut(start, messages) then |Text(start, Joined(messages))| < |Logged(start, messages)|
            else Text(start, Joined(messages)) == Logged(start, messages)
  {
    if messages != [] {
      var rest, m := messages[..|messages| - 1], messages[|messages| - 1];
      assert messages == rest + [m];
      hide Text, TagCut, Joined, Logged;
      LoggedIsText(start, rest);
      TextConcat(start, Joined(rest), m);
      TagCutNext(start, rest, m);
      JoinedNext(rest, m);
      LoggedNext(start, rest, m);
    }
  }

  /** One character within a line leaves the log. */
  lemma {:induction false} LineStep(total: string, logged: string, rest: string)
    requires total == logged + Text(false, rest) && rest != ""
    ensures total == logged + [rest[0]] + Text(rest[0] == '\n', rest[1..])
  {
  }

  // ---------- the ring ----------

  /** How much of a stream of n characters the ring keeps. */
  function Kept(n: nat): nat { if n < LOGBUFF_LEN then n else LOGBUFF_LEN }

  /** The ring r has the end of stream s: character i is in slot i modulo the ring's length. */
  predicate Window(r: seq<char>, s: string)
    requires |r| == LOGBUFF_LEN
  {
    forall i :: |s| - Kept(|s|) <= i < |s| ==> r[i % LOGBUFF_LEN] == s[i]
  }

  lemma SlotsDiffer(i: nat, n: nat)
    requires n - LOGBUFF_LEN < i < n
    ensures i % LOGBUFF_LEN != n % LOGBUFF_LEN
  {
  }

  lemma WindowNext(r: seq<char>, s: string, c: char)
    requires |r| == LOGBUFF_LEN && Window(r, s)
    ensures Window(r[|s| % LOGBUFF_LEN := c], s + [c])
  {
    var n := |s|;
    forall i | n + 1 - Kept(n + 1) <= i < n
      ensures r[n % LOGBUFF_LEN := c][i % LOGBUFF_LEN] == (s + [c])[i]
    {
      SlotsDiffer(i, n);
    }
  }

  lemma SlotOfCounter(n: nat)
    ensures (n % TWO32) % LOGBUFF_LEN == n % LOGBUFF_LEN
  {
    var q, r := n / TWO32, n % TWO32;
    assert n == r + LOGBUFF_LEN * (q * 262144);
    ModAdds(r, LOGBUFF_LEN, q * 262144);
  }

  lemma ModSum(a: nat, b: nat)
    ensures (a % TWO32 + b) % TWO32 == (a + b) % TWO32
    ensures b < TWO32 ==> ((a + b) % TWO32 - a % TWO32) % TWO32 == b
  {
  }

  lemma SlotOfSum(n: nat, i: nat)
    ensures (n % TWO32 + i) % TWO32 % LOGBUFF_LEN == (n + i) % LOGBUFF_LEN
  {
    ModSum(n, i);
    SlotOfCounter(n + i);
  }

  /** Counters modulo 2^32, one character on. */
  lemma CountersNext(n: nat, start: u32)
    requires start == (n - Kept(n)) % TWO32
    ensures Add32(n % TWO32, 1) == (n + 1) % TWO32
    ensures Sub32((n + 1) % TWO32, start) == Kept(n) + 1
    ensures Add32(start, Kept(n)) == n % TWO32
    ensures (n + 1 - Kept(n + 1)) % TWO32 == if Kept(n) < LOGBUFF_LEN then start else Add32(start, 1)
  {
    ModSum(n - Kept(n), Kept(n));
    ModSum(n - Kept(n), Kept(n) + 1);
    ModSum(n - Kept(n), 1);
    ModSum(n, 1);
  }

  lemma SizeOf(n: nat, start: u32)
    requires start == (n - Kept(n)) % TWO32
    ensures Sub32(n % TWO32, start) == Kept(n)
  {
    ModSum(n - Kept(n), Kept(n));
  }

  lemma AfterJoined(start: bool, s: string, t: string)
    ensures After(start, s + t) == After(After(start, s), t)
  {
  }

  class LogBuffer {
    /** logversion 2 keeps start and end counters, version 1 a start counter and a size. */
    const version2: bool
    const ring: array<char>
    /** The static line buffer; messages start at index 3. */
    const line: array<char>
    var start: u32
    var size: u32
    var end: u32
    var chars: u32
    var msgLevel: int
    /** Everything logged since the last reset. */
    ghost var stream: string

    ghost predicate Shaped()
    {
      ring.Length == LOGBUFF_LEN && line.Length == 1024 && ring != line
    }

    /** The counters count modulo 2^32, and the ring has the end of the stream. */
    ghost predicate Valid()
      reads this, ring
    {
      && Shaped()
      && start == (|stream| - Kept(|stream|)) % TWO32 && chars == |stream| % TWO32
      && (if version2 then end == |stream| % TWO32 else size == Kept(|stream|))
      && Window(ring[..], stream)
    }

    constructor (version2: bool)
      ensures Valid() && stream == "" && msgLevel == -1 && this.version2 == version2 && fresh(ring) && fresh(line)
    {
      this.version2 := version2;
      ring := new char[LOGBUFF_LEN];
      line := new char[1024];
      start, size, end, chars, msgLevel := 0, 0, 0, 0, -1;
      stream := "";
    }

    /** The characters from the start counter on. */
    ghost function Contents(): string
      requires Valid()
      reads this, ring
    {
      seq(Kept(|stream|), i requires 0 <= i < Kept(|stream|) reads this, ring requires Valid() =>
        ring[Add32(start, i) % LOGBUFF_LEN])
    }

    lemma ContentsAreLast()
      requires Valid()
      ensures Contents() == stream[|stream| - Kept(|stream|)..]
    {
      var n := |stream| - Kept(|stream|);
      forall i | 0 <= i < Kept(|stream|) ensures Contents()[i] == stream[n + i] {
        SlotOfSum(n, i);
        assert ring[..][(n + i) % LOGBUFF_LEN] == stream[n + i];
      }
    }

    /** logbuff_reset. The state of the current line is kept. */
    method Reset()
      requires Shaped()
      modifies this`start, this`size, this`end, this`chars, this`stream
      ensures Valid() && stream == ""
    {
      start, size, end, chars := 0, 0, 0, 0;
      stream := "";
    }

    method PutChar(c: char)
      requires Valid()
      modifies this`start, this`size, this`end, this`chars, this`stream, ring
      ensures Valid() && stream == old(stream) + [c]
    {
      hide Window, Add32, Sub32;
      ghost var n := |stream|;
      SlotOfCounter(n);
      CountersNext(n, start);
      WindowNext(ring[..], stream, c);
      if version2 {
        ring[end % LOGBUFF_LEN] := c;
        end := Add32(end, 1);
        if Sub32(end, start) > LOGBUFF_LEN {
          start := Add32(start, 1);
        }
      } else {
        ring[Add32(start, size) % LOGBUFF_LEN] := c;
        if size < LOGBUFF_LEN {
          size := size + 1;
        } else {
          start := Add32(start, 1);
        }
      }
      chars := Add32(chars, 1);
      stream := stream + [c];
      assert ring[..] == old(ring[..])[n % LOGBUFF_LEN := c];
    }

    /** The characters from index `from` on of one line: up to the end of the message or
        behind the line feed, whose index is then `next`. */
    method PutLine(from: nat, bufEnd: nat) returns (lineFeed: bool, next: nat)
      requires Valid() && Shaped() && from < bufEnd <= line.Length
      modifies this`start, this`size, this`end, this`chars, this`stream, ring
      ensures Valid() && from <= next <= bufEnd && (lineFeed ==> next < bufEnd) && (!lineFeed ==> next == bufEnd)
      ensures lineFeed ==> line[next] == '\n'
      ensures old(stream) + Text(false, line[from..bufEnd])
           == stream + if lineFeed then Text(true, line[next + 1..bufEnd]) else ""
      ensures After(false, line[from..bufEnd]) == if lineFeed then After(true, line[next + 1..bufEnd]) else false
    {
      hide Text, Valid, Window, After;
      next := from;
      lineFeed := false;
      NothingBefore(false, "");
      while next < bufEnd
        invariant from <= next <= bufEnd && Valid() && !lineFeed
        invariant old(stream) + Text(false, line[from..bufEnd]) == stream + Text(false, line[next..bufEnd])
        invariant After(false, line[from..bufEnd]) == After(false, line[next..bufEnd])
      {
        ghost var rest := line[next..bufEnd];
        assert rest[0] == line[next] && rest[1..] == line[next + 1..bufEnd];
        AfterRest(false, rest);
        LineStep(old(stream) + Text(false, line[from..bufEnd]), stream, rest);
        PutChar(line[next]);
        if line[next] == '\n' {
          lineFeed := true;
          break;
        }
        next := next + 1;
      }
    }

    /** The rest of the message in the line buffer. */
    ghost function Rest(p: nat, bufEnd: nat): string
      requires bufEnd <= line.Length
      reads line
    {
      if p < bufEnd then line[p..bufEnd] else ""
    }

    /** The prefix check at a line start: a line without its own tag gets the default prefix,
        written over the characters before it. */
    method StartLine(p: nat, bufEnd: nat) returns (q: nat)
      requires Shaped() && 3 <= p < bufEnd < 1024 && line[bufEnd] == NUL && msgLevel < 0
      modifies this`msgLevel, line
      ensures q <= p && q < bufEnd && line[bufEnd] == NUL && 0 <= msgLevel <= 7
      ensures Text(false, Rest(q, bufEnd)) == Text(true, old(Rest(p, bufEnd)))
      ensures After(false, Rest(q, bufEnd)) == After(true, old(Rest(p, bufEnd)))
      ensures forall i :: q <= i < p ==> line[i] != '\n'
    {
      hide Text;
      q := p;
      ghost var rest := line[p..bufEnd];
      if line[p] != '<' || line[p + 1] < '0' || line[p + 1] > '7' || line[p + 2] != '>' {
        assert !Tagged(rest);
        q := p - 3;
        line[q], line[q + 1], line[q + 2] := '<', DEFAULT_LEVEL, '>';
        assert line[q..bufEnd] == Prefix() + rest;
        TextStart(rest);
      } else {
        assert Tagged(rest);
        TextTagged(rest);
      }
      msgLevel := line[q + 1] as int - '0' as int;
    }

    /** logbuff_printk: the message, with its prefixes, joins the stream. */
    method Printk(text: string) returns (count: nat)
      requires Valid() && Shaped() && |text| <= 1020 && NUL !in text && -1 <= msgLevel <= 7
      modifies this`start, this`size, this`end, this`chars, this`stream, this`msgLevel, ring, line
      ensures Valid() && count == |text| && -1 <= msgLevel <= 7
      ensures stream == old(stream) + Text(old(msgLevel) < 0, text)
      ensures msgLevel < 0 <==> After(old(msgLevel) < 0, text)
    {
      hide Text, After, Window;
      forall i | 0 <= i < |text| {
        line[3 + i] := text[i];
      }
      count := |text|;
      line[3 + count] := NUL;
      var p, bufEnd := 3, 3 + count;
      assert Rest(p, bufEnd) == text;
      while p < bufEnd
        invariant 3 <= p <= bufEnd + 1 && Valid() && line[bufEnd] == NUL && -1 <= msgLevel <= 7
        invariant old(stream) + Text(old(msgLevel) < 0, text) == stream + Text(msgLevel < 0, Rest(p, bufEnd))
        invariant After(old(msgLevel) < 0, text) == After(msgLevel < 0, Rest(p, bufEnd))
        decreases bufEnd - p
      {
        var from, lineFeed := p, false;
        if msgLevel < 0 {
          from := StartLine(p, bufEnd);
        }
        ghost var lineStart := p;
        lineFeed, p := PutLine(from, bufEnd);
        assert lineFeed ==> p >= lineStart && Rest(p + 1, bufEnd) == line[p + 1..bufEnd];
        if lineFeed {
          msgLevel := -1;
        }
        p := p + 1;
        NothingBefore(false, "");
      }
      NothingBefore(msgLevel < 0, "");
    }

    /** A run of messages. */
    method PrintAll(messages: seq<string>)
      requires Valid() && Shaped() && -1 <= msgLevel <= 7
      requires forall k :: 0 <= k < |messages| ==> |messages[k]| <= 1020 && NUL !in messages[k]
      modifies this`start, this`size, this`end, this`chars, this`stream, this`msgLevel, ring, line
      ensures Valid() && -1 <= msgLevel <= 7
      ensures stream == old(stream) + Logged(old(msgLevel) < 0, messages)
    {
      hide Text, After, Window, Valid;
      ghost var first := msgLevel < 0;
      var k := 0;
      NothingBefore(first, "");
      while k < |messages|
        invariant 0 <= k <= |messages| && Valid() && -1 <= msgLevel <= 7
        invariant stream == old(stream) + Logged(first, messages[..k])
        invariant msgLevel < 0 <==> After(first, Joined(messages[..k]))
      {
        ghost var done := messages[..k];
        assert messages[..k + 1] == done + [messages[k]];
        JoinedNext(done, messages[k]);
        LoggedNext(first, done, messages[k]);
        AfterJoined(first, Joined(done), messages[k]);
        var _ := Printk(messages[k]);
        k := k + 1;
      }
      assert messages[..k] == messages;
    }

    /** `log show`: what the ring keeps, but nothing once it is full. */
    method Show() returns (text: string)
      requires Valid()
      ensures text == if |stream| < LOGBUFF_LEN then stream else ""
    {
      ContentsAreLast();
      SizeOf(|stream|, start);
      var shown := (if version2 then Sub32(end, start) else size) % LOGBUFF_LEN;
      text := "";
      var i := 0;
      while i < shown
        invariant 0 <= i <= shown && text == Contents()[..i]
      {
        text := text + [ring[Add32(start, i) % LOGBUFF_LEN]];
        i := i + 1;
      }
    }
  }
}
