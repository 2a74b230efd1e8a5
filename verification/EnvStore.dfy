/** The flat environment of common/cmd_nvedit.c: "name=value" texts, each closed
    by a NUL, the list closed by one more, edited in place in a byte array. */
module EnvStore {
  import opened CText

  const NUL: char := '\0'

  // ---------- the layout ----------

  /** The entries one after the other, each with its NUL. */
  function Block(es: seq<string>): string {
    if es == [] then "" else es[0] + [NUL] + Block(es[1..])
  }

  /** The whole text: an empty list is two NULs, any other list ends in two. */
  function Encode(es: seq<string>): string {
    Block(es) + if es == [] then [NUL, NUL] else [NUL]
  }

  predicate EntryOk(e: string) { NUL !in e && '=' in e }

  predicate EntriesOk(es: seq<string>) { forall i :: 0 <= i < |es| ==> EntryOk(es[i]) }

  function NameOf(e: string): string
    requires '=' in e
  {
    e[..IndexOf(e, '=').value]
  }

  function ValueOf(e: string): string
    requires '=' in e
  {
    e[IndexOf(e, '=').value + 1..]
  }

  /** A name given as "name=anything" means "name". */
  function KeyOf(name: string): string {
    match IndexOf(name, '=') case None => name case Some(i) => name[..i]
  }

  predicate Unique(es: seq<string>)
    requires EntriesOk(es)
  {
    forall i, j :: 0 <= i < j < |es| ==> NameOf(es[i]) != NameOf(es[j])
  }

  predicate Holds(data: string, es: seq<string>) {
    EntriesOk(es) && Encode(es) <= data
  }

  lemma {:induction false} BlockConcat(a: seq<string>, b: seq<string>)
    ensures Block(a + b) == Block(a) + Block(b)
  {
    if a == [] {
      assert a + b == b;
    } else {
      BlockConcat(a[1..], b);
      assert (a + b)[1..] == a[1..] + b;
    }
  }

  lemma {:induction false} BlockCons(e: string, rest: seq<string>)
    ensures Block([e] + rest) == e + [NUL] + Block(rest)
    ensures Block([e]) == e + [NUL]
  {
    assert ([e] + rest)[1..] == rest;
    assert Block([e]) == e + [NUL] + Block([]);
  }

  lemma SplitAt<T>(s: seq<T>, k: nat)
    requires k < |s|
    ensures s == s[..k] + ([s[k]] + s[k + 1..]) && s[..k + 1] == s[..k] + [s[k]]
  {
  }

  lemma Reassociate(a: string, b: string, c: string, d: string)
    ensures a + (b + c + d) == a + b + c + d && a + (b + c) == a + b + c
  {
  }

  /** Where entry k stands. */
  lemma {:induction false} EntryAt(es: seq<string>, k: nat)
    requires k < |es|
    ensures Block(es) == Block(es[..k]) + es[k] + [NUL] + Block(es[k + 1..])
    ensures Block(es[..k + 1]) == Block(es[..k]) + es[k] + [NUL]
  {
    hide *;
    var pre, e, post := es[..k], es[k], es[k + 1..];
    SplitAt(es, k);
    BlockConcat(pre, [e] + post);
    BlockConcat(pre, [e]);
    BlockCons(e, post);
    Reassociate(Block(pre), e, [NUL], Block(post));
  }

  /** The same, in the data that holds the list. */
  lemma EntryInData(data: string, es: seq<string>, k: nat)
    requires Holds(data, es) && k <= |es|
    ensures |Block(es[..k])| < |data| && EntriesOk(es) && (k < |es| ==> EntryOk(es[k]))
    ensures data[|Block(es[..k])|] == NUL <==> k == |es|
    ensures k < |es| ==>
      var at := |Block(es[..k])|;
      && at + |es[k]| + 1 < |data| && data[at..at + |es[k]|] == es[k] && data[at + |es[k]|] == NUL
      && |Block(es[..k + 1])| == at + |es[k]| + 1
      && (data[at + |es[k]| + 1] == NUL <==> k + 1 == |es|)
  {
    if k < |es| {
      EntryAt(es, k);
      var at := |Block(es[..k])|;
      var after := Block(es[k + 1..]) + [NUL];
      assert Encode(es) == Block(es[..k]) + es[k] + [NUL] + after;
      assert data[at..at + |es[k]|] == es[k];
      assert es[k] != "" && es[k][0] in es[k];
      if k + 1 < |es| {
        assert after[0] == es[k + 1][0] && es[k + 1][0] in es[k + 1];
      }
      assert data[at + |es[k]| + 1] == after[0];
    } else {
      assert es[..k] == es;
    }
  }

  /** The first place where two NULs meet is the end of the list. */
  lemma {:induction false} DoubleNul(es: seq<string>, t: nat)
    requires EntriesOk(es) && es != [] && t + 1 < |Block(es)| + 1
    ensures var text := Block(es) + [NUL];
      text[t] == NUL && text[t + 1] == NUL <==> t == |Block(es)| - 1
  {
    var e, more := es[0], es[1..];
    var text, rest := Block(es) + [NUL], Block(more) + [NUL];
    assert text == e + [NUL] + rest;
    assert forall i :: 0 <= i < |e| ==> e[i] in e;
    if t == |e| && more != [] {
      assert rest[0] == more[0][0] && more[0][0] in more[0];
    } else if t > |e| {
      DoubleNul(more, t - |e| - 1);
      assert text[t] == rest[t - |e| - 1] && text[t + 1] == rest[t - |e|];
    }
  }

  // ---------- what setenv means ----------

  function FindName(es: seq<string>, name: string): (r: Option<nat>)
    requires EntriesOk(es)
    ensures r.Some? ==> r.value < |es| && NameOf(es[r.value]) == name
    ensures r.Some? ==> forall i :: 0 <= i < r.value ==> NameOf(es[i]) != name
    ensures r.None? ==> forall i :: 0 <= i < |es| ==> NameOf(es[i]) != name
  {
    if es == [] then None
    else if NameOf(es[0]) == name then Some(0)
    else
      assert forall i :: 1 <= i < |es| ==> es[i] == es[1..][i - 1];
      match FindName(es[1..], name) case None => None case Some(i) => Some(i + 1)
  }

  function Lookup(es: seq<string>, name: string): Option<string>
    requires EntriesOk(es)
  {
    match FindName(es, name) case None => None case Some(k) => Some(ValueOf(es[k]))
  }

  lemma LookupFirst(es: seq<string>, name: string, k: nat)
    requires EntriesOk(es) && k < |es| && NameOf(es[k]) == name
    requires forall j :: 0 <= j < k ==> NameOf(es[j]) != name
    ensures Lookup(es, name) == Some(ValueOf(es[k]))
  {
    hide NameOf, ValueOf, EntryOk, FindName;
  }

  lemma LookupNone(es: seq<string>, name: string)
    requires EntriesOk(es) && forall j :: 0 <= j < |es| ==> NameOf(es[j]) != name
    ensures Lookup(es, name) == None
  {
    hide NameOf, EntryOk, FindName;
  }

  /** The arguments of a definition as they are stored: '=' before the first, ' ' before the others. */
  function Tail(args: seq<string>, sep: char): string {
    if args == [] then "" else [sep] + args[0] + Tail(args[1..], ' ')
  }

  function Entry(name: string, args: seq<string>): string { name + Tail(args, '=') }

  /** The arguments joined by single spaces. */
  function Join(args: seq<string>): string {
    if args == [] then "" else args[0] + if |args| == 1 then "" else " " + Join(args[1..])
  }

  predicate WriteOnce(name: string) { name == "serial#" || name == "ethaddr" }

  predicate Console(name: string) { name == "stdin" || name == "stdout" || name == "stderr" }

  /** Names whose change is first put to a device: a console, or the baud rate generator. */
  predicate Hooked(name: string) { Console(name) || name == "baudrate" }

  /** Whether a definition still fits behind the entries, in a store of `size` bytes. */
  predicate Fits(size: nat, es: seq<string>, name: string, args: seq<string>) {
    |Block(es)| + |Entry(name, args)| + 2 <= size
  }

  function Append(size: nat, es: seq<string>, name: string, args: seq<string>): (int, seq<string>) {
    if args == [] then (0, es)
    else if Fits(size, es, name, args) then (0, es + [Entry(name, args)])
    else (1, es)
  }

  /** _do_setenv on the entries: its return code and the entries it leaves.
      `accepted` is the answer of the device behind a hooked name. */
  function SetEnv(size: nat, es: seq<string>, name: string, args: seq<string>, accepted: bool): (int, seq<string>)
    requires EntriesOk(es)
  {
    if '=' in name then (1, es)
    else match FindName(es, name)
      case None => Append(size, es, name, args)
      case Some(k) =>
        if WriteOnce(name) then (1, es)
        else if Console(name) && args == [] then (1, es)
        else if Hooked(name) && !accepted then (1, es)
        else Append(size, Without(es, k), name, args)
  }

  // ---------- the store ----------

  /** Two NULs meet at the end of the text and nowhere else. */
  predicate OneDoubleNul(text: string) {
    && |text| >= 2
    && forall t :: 0 <= t < |text| - 1 ==> (text[t] == NUL && text[t + 1] == NUL <==> t == |text| - 2)
  }

  lemma {:induction false} BlockNotEmpty(es: seq<string>)
    requires es != []
    ensures Block(es) != ""
  {
  }

  /** What follows a deleted entry: the other entries and the final NUL. */
  lemma {:induction false} TailShape(post: seq<string>)
    requires EntriesOk(post)
    ensures if post == [] then Block(post) + [NUL] == [NUL] else OneDoubleNul(Block(post) + [NUL])
  {
    var text := Block(post) + [NUL];
    if post != [] {
      BlockNotEmpty(post);
      forall t | 0 <= t < |text| - 1
        ensures text[t] == NUL && text[t + 1] == NUL <==> t == |text| - 2
      {
        DoubleNul(post, t);
      }
      assert OneDoubleNul(text);
    }
  }

  lemma {:induction false} EncodeSome(es: seq<string>)
    ensures es != [] ==> Encode(es) == Block(es) + [NUL]
    ensures Encode([]) == [NUL, NUL]
  {
    assert Block([]) + [NUL, NUL] == [NUL, NUL];
  }

  lemma BlockNil()
    ensures Block([]) == ""
  {
  }

  lemma {:induction false} EncodeShape(es: seq<string>)
    requires EntriesOk(es)
    ensures OneDoubleNul(Encode(es))
    ensures if es == [] then Block(es) == "" && |Encode(es)| == 2 else |Block(es)| == |Encode(es)| - 1 >= 2
  {
    hide Block;
    TailShape(es);
    EncodeSome(es);
    BlockNil();
    if es != [] {
      BlockCons(es[0], es[1..]);
      assert es == [es[0]] + es[1..] && es[0] != "";
    }
  }

  lemma {:induction false} BlockInData(data: string, es: seq<string>)
    requires Holds(data, es)
    ensures |Block(es)| <= |data| && data[..|Block(es)|] == Block(es)
  {
    var b := Block(es);
    assert Encode(es)[..|b|] == b;
  }

  lemma AppendNothing(size: nat, es: seq<string>, name: string)
    ensures Append(size, es, name, []) == (0, es)
  {
  }

  lemma NoOther(es: seq<string>, k: nat, name: string)
    requires EntriesOk(es) && Unique(es) && k < |es| && NameOf(es[k]) == name
    ensures EntriesOk(Without(es, k))
    ensures forall i :: 0 <= i < |Without(es, k)| ==> NameOf(Without(es, k)[i]) != name
  {
    hide NameOf, EntryOk;
    var out := Without(es, k);
    assert forall i :: 0 <= i < |out| ==> out[i] == es[if i < k then i else i + 1];
  }

  lemma {:induction false} TailOk(args: seq<string>, sep: char)
    requires sep != NUL && forall i :: 0 <= i < |args| ==> NUL !in args[i]
    ensures NUL !in Tail(args, sep)
    ensures args != [] ==> Tail(args, sep) == [sep] + Join(args)
  {
    if args != [] {
      TailOk(args[1..], ' ');
    }
  }

  /** A new definition is an entry: its name is what stands before '=', its value the joined arguments. */
  lemma {:induction false} EntryParts(name: string, args: seq<string>)
    requires NUL !in name && '=' !in name && args != [] && forall i :: 0 <= i < |args| ==> NUL !in args[i]
    ensures EntryOk(Entry(name, args)) && NameOf(Entry(name, args)) == name
    ensures ValueOf(Entry(name, args)) == Join(args)
  {
    hide Tail, Join, IndexOf;
    TailOk(args, '=');
    IndexOfPast(name, '=', Join(args));
    assert Entry(name, args) == name + ['='] + Join(args);
    assert Entry(name, args)[|name|] == '=';
  }

  lemma TwoNuls(b: string, e: string)
    ensures b + (e + [NUL]) + [NUL] == b + e + [NUL, NUL]
  {
  }

  lemma HoldsIf(data: string, es: seq<string>)
    requires EntriesOk(es) && Encode(es) <= data
    ensures Holds(data, es)
  {
  }

  lemma OkAppend(es: seq<string>, e: string)
    requires EntriesOk(es) && Unique(es) && EntryOk(e) && forall i :: 0 <= i < |es| ==> NameOf(es[i]) != NameOf(e)
    ensures EntriesOk(es + [e]) && Unique(es + [e])
  {
    hide NameOf;
  }

  lemma {:induction false} AppendedOk(data: string, es: seq<string>, name: string, args: seq<string>)
    requires EntriesOk(es) && Unique(es) && forall i :: 0 <= i < |es| ==> NameOf(es[i]) != name
    requires NUL !in name && '=' !in name && args != [] && forall i :: 0 <= i < |args| ==> NUL !in args[i]
    requires Block(es) + Entry(name, args) + [NUL, NUL] <= data
    ensures var out := es + [Entry(name, args)]; Holds(data, out) && Unique(out)
  {
    hide *;
    var e := Entry(name, args);
    EntryParts(name, args);
    BlockConcat(es, [e]);
    BlockCons(e, []);
    EncodeSome(es + [e]);
    OkAppend(es, e);
    TwoNuls(Block(es), e);
    HoldsIf(data, es + [e]);
  }

  lemma WithoutOk(es: seq<string>, k: nat)
    requires EntriesOk(es) && Unique(es) && k < |es|
    ensures EntriesOk(Without(es, k)) && Unique(Without(es, k))
  {
    hide NameOf, EntryOk;
    var out := Without(es, k);
    assert forall i :: 0 <= i < |out| ==> out[i] == es[if i < k then i else i + 1];
  }

  /** The C string that starts at index i is v. */
  predicate TextAt(data: string, i: nat, v: string) {
    i + |v| < |data| && data[i..i + |v|] == v && data[i + |v|] == NUL && NUL !in v
  }

  lemma ValueChars(data: string, at: nat, e: string)
    requires at + |e| < |data| && data[at..at + |e|] == e && EntryOk(e) && data[at + |e|] == NUL
    ensures TextAt(data, at + |NameOf(e)| + 1, ValueOf(e))
  {
    var v := ValueOf(e);
    assert forall j :: 0 <= j < |v| ==> v[j] in e;
    assert data[at..at + |e|][|NameOf(e)| + 1..] == v;
  }

  lemma LayoutOf(data: string, a: string, e: string, text: string)
    requires |text| > 0
    requires a + e + [NUL] + text[..|text| - 1] + [NUL] <= data && text[|text| - 1] == NUL
    ensures var from := |a| + |e| + 1;
      from + |text| <= |data| && data[from..from + |text|] == text && data[..|a|] == a
  {
    assert text == text[..|text| - 1] + [NUL];
    var all := a + e + [NUL] + text;
    assert all == a + e + [NUL] + text[..|text| - 1] + [NUL];
    assert data[..|all|] == all;
  }

  /** Behind entry k stands the next one, or the end. */
  lemma NextInData(data: string, es: seq<string>, k: nat)
    requires Holds(data, es) && k < |es|
    ensures var next := |Block(es[..k])| + |es[k]| + 1;
      next == |Block(es[..k + 1])| < |data| && (data[next] == NUL <==> k + 1 == |es|)
  {
    hide Block, Encode, EntryOk;
    EntryInData(data, es, k);
    EntryInData(data, es, k + 1);
  }

  lemma ValueInData(data: string, es: seq<string>, k: nat)
    requires Holds(data, es) && k < |es|
    ensures EntryOk(es[k]) && TextAt(data, |Block(es[..k])| + |NameOf(es[k])| + 1, ValueOf(es[k]))
  {
    hide Block, Encode, NameOf, ValueOf, TextAt;
    EntryInData(data, es, k);
    ValueChars(data, |Block(es[..k])|, es[k]);
  }

  /** Where the pieces around entry k stand. */
  lemma DeleteLayout(data: string, es: seq<string>, k: nat)
    requires Holds(data, es) && k < |es|
    ensures var env, post := |Block(es[..k])|, es[k + 1..];
      var text, from := Block(post) + [NUL], env + |es[k]| + 1;
      && from + |text| <= |data| && data[from..from + |text|] == text && env < from
      && data[..env] == Block(es[..k]) && (env == 0 <==> k == 0)
      && (env > 0 ==> data[env - 1] == NUL)
  {
    hide Block, EntryOk;
    var env, text := |Block(es[..k])|, Block(es[k + 1..]) + [NUL];
    EntryAt(es, k);
    EncodeSome(es);
    LayoutOf(data, Block(es[..k]), es[k], text);
    if k > 0 {
      EntryAt(es, k - 1);
    } else {
      assert es[..0] == [];
      BlockNil();
    }
  }

  lemma EncodeWithout(es: seq<string>, k: nat)
    requires k < |es|
    ensures Encode(Without(es, k)) ==
      if k == 0 && k + 1 == |es| then [NUL, NUL] else Block(es[..k]) + (Block(es[k + 1..]) + [NUL])
  {
    hide Block;
    BlockConcat(es[..k], es[k + 1..]);
    EncodeSome(Without(es, k));
  }

  /** The list without entry k, but for its last NUL, by what follows the entry. */
  lemma WithoutLayout(data: string, es: seq<string>, k: nat)
    requires Holds(data, es) && k < |es|
    ensures var env, text, out := |Block(es[..k])|, Block(es[k + 1..]) + [NUL], Encode(Without(es, k));
      var from := env + |es[k]| + 1;
      && from < |data| && env < from && |out| > 0
      && (data[from] == NUL ==> out[..|out| - 1] == if env > 0 then data[..env] else [NUL])
      && (data[from] != NUL ==> OneDoubleNul(text) && out[..|out| - 1] == data[..env] + text[..|text| - 1])
  {
    hide Block, Encode, EntryOk, NameOf, OneDoubleNul, Without;
    var post := es[k + 1..];
    DeleteLayout(data, es, k);
    EncodeWithout(es, k);
    TailShape(post);
    EntryInData(data, es, k);
    assert post == [] <==> k + 1 == |es|;
  }

  lemma NulFree(data: string, at: nat, e: string, i: nat)
    requires at <= i < at + |e| <= |data| && data[at..at + |e|] == e && NUL !in e
    ensures data[i] != NUL
  {
    assert data[at..at + |e|][i - at] in e;
  }

  lemma {:induction false} EntryChars(data: string, at: nat, e: string)
    requires at + |e| < |data| && data[at..at + |e|] == e && EntryOk(e)
    ensures var eq := IndexOf(e, '=').value;
      && eq == |NameOf(e)| && data[at + eq] == '=' && e[eq] == '='
      && forall j :: 0 <= j <= eq ==> data[at + j] == e[j] && e[j] != NUL && (j < eq ==> e[j] != '=')
  {
    var eq := IndexOf(e, '=').value;
    forall j | 0 <= j <= eq ensures data[at + j] == e[j] && e[j] != NUL && (j < eq ==> e[j] != '=') {
      assert data[at..at + |e|][j] == e[j] && e[j] in e;
      if j < eq {
        assert e[..eq][j] in e[..eq];
      }
    }
  }

  lemma KeyIs(name: string, j: nat)
    requires j <= |name| && '=' !in name[..j] && (j < |name| ==> name[j] == '=')
    ensures KeyOf(name) == name[..j]
  {
    if j < |name| {
      assert name == name[..j] + ['='] + name[j + 1..];
      IndexOfPast(name[..j], '=', name[j + 1..]);
    } else {
      assert name[..j] == name;
    }
  }

  lemma {:induction false} KeyDiffers(name: string, e: string, j: nat)
    requires '=' in e && j <= |name| && j <= IndexOf(e, '=').value
    requires name[..j] == e[..j] && '=' !in name[..j]
    requires if j < |name| then name[j] != e[j] else e[j] != '='
    ensures KeyOf(name) != NameOf(e)
  {
  }

  lemma {:induction false} EncodeNone(data: string)
    requires |data| >= 2 && data[0] == data[1] == NUL
    ensures Holds(data, []) && Unique([])
  {
    assert Encode([]) == [NUL, NUL] && data[..2] == [NUL, NUL];
  }

  class Store {
    const data: array<char>
    /** The list the data holds. */
    ghost var entries: seq<string>

    ghost predicate Valid()
      reads this, data
    {
      Holds(data[..], entries) && Unique(entries)
    }

    /** An empty environment: two NULs. */
    constructor (size: nat)
      requires size >= 2
      ensures Valid() && entries == [] && data.Length == size && fresh(data)
    {
      data := new char[size];
      entries := [];
      new;
      data[0], data[1] := NUL, NUL;
      EncodeNone(data[..]);
    }

    /** envmatch, at the start of entry k: the index of its value, or -1. */
    method EnvMatch(name: string, i2: nat, ghost k: nat) returns (r: int)
      requires Valid() && NUL !in name
      requires k < |entries| && i2 == |Block(entries[..k])|
      ensures r == if NameOf(entries[k]) == KeyOf(name) then i2 + |NameOf(entries[k])| + 1 else -1
    {
      hide Block, Unique, KeyOf, IndexOf, Encode;
      ghost var e := entries[k];
      EntryInData(data[..], entries, k);
      ghost var eq := IndexOf(e, '=').value;
      EntryChars(data[..], i2, e);
      var j, i := 0, i2;
      while j < |name| && name[j] == data[i]
        invariant 0 <= j <= |name| && j <= eq && i == i2 + j && i < data.Length
        invariant name[..j] == e[..j] && '=' !in name[..j]
      {
        if name[j] == '=' {
          KeyIs(name, j);
          return i + 1;
        }
        assert j < eq;
        j := j + 1;
        i := i + 1;
      }
      // the name's closing NUL meets no character of the entry
      if j == |name| && data[i] == '=' {
        KeyIs(name, j);
        return i + 1;
      }
      KeyDiffers(name, e, j);
      return -1;
    }

    /** The scan to the NUL that closes entry k. */
    method EndOf(env: nat, ghost k: nat) returns (nxt: nat)
      requires Valid() && k < |entries| && env == |Block(entries[..k])|
      ensures nxt == env + |entries[k]|
    {
      hide Block, Unique, Encode;
      ghost var e := entries[k];
      EntryInData(data[..], entries, k);
      nxt := env;
      while data[nxt] != NUL
        invariant env <= nxt <= env + |e| < data.Length
        decreases env + |e| - nxt
      {
        nxt := nxt + 1;
      }
      if nxt < env + |e| {
        NulFree(data[..], env, e, nxt);
      }
    }

    /** The search loop of _do_setenv: where the definition of a name stands and ends. */
    method Search(name: string) returns (found: bool, env: nat, nxt: nat, ghost k: nat)
      requires Valid() && NUL !in name
      ensures found <==> FindName(entries, KeyOf(name)).Some?
      ensures found ==> FindName(entries, KeyOf(name)) == Some(k) && k < |entries|
      ensures found ==> env == |Block(entries[..k])| && nxt == env + |entries[k]|
    {
      hide Block, Unique, Encode, KeyOf, NameOf, FindName;
      env, nxt, k := 0, 0, 0;
      BlockNil();
      assert entries[..0] == [];
      EntryInData(data[..], entries, 0);
      while data[env] != NUL
        invariant k <= |entries| && env == |Block(entries[..k])| < data.Length
        invariant data[env] == NUL <==> k == |entries|
        invariant forall i :: 0 <= i < k ==> NameOf(entries[i]) != KeyOf(name)
        decreases |entries| - k
      {
        nxt := EndOf(env, k);
        var val := EnvMatch(name, env, k);
        if val >= 0 {
          return true, env, nxt, k;
        }
        NextInData(data[..], entries, k);
        env := nxt + 1;
        k := k + 1;
      }
      found := false;
    }

    /** getenv: the index of the value, or None. */
    method Getenv(name: string) returns (r: Option<nat>)
      requires Valid() && NUL !in name
      ensures match Lookup(entries, KeyOf(name))
        case None => r == None
        case Some(v) => r.Some? && TextAt(data[..], r.value, v)
    {
      hide Block, Unique, Encode, KeyOf, NameOf, ValueOf, TextAt, Lookup;
      var i := 0;
      ghost var k := 0;
      BlockNil();
      assert entries[..0] == [];
      EntryInData(data[..], entries, 0);
      while data[i] != NUL
        invariant k <= |entries| && i == |Block(entries[..k])| < data.Length
        invariant data[i] == NUL <==> k == |entries|
        invariant forall j :: 0 <= j < k ==> NameOf(entries[j]) != KeyOf(name)
        decreases |entries| - k
      {
        var nxt := EndOf(i, k);
        var val := EnvMatch(name, i, k);
        if val >= 0 {
          ValueInData(data[..], entries, k);
          LookupFirst(entries, KeyOf(name), k);
          return Some(val);
        }
        NextInData(data[..], entries, k);
        i := nxt + 1;
        k := k + 1;
      }
      LookupNone(entries, KeyOf(name));
      r := None;
    }

    /** The shifting loop of _do_setenv: what stands at `from` moves down to `env0`, up to
        and including the first of two NULs in a row, which ends up at `env`. */
    method Shift(env0: nat, from: nat, ghost text: string) returns (env: nat)
      requires env0 < from && from + |text| <= data.Length
      requires data[from..from + |text|] == text && OneDoubleNul(text)
      modifies data
      ensures env == env0 + |text| - 2
      ensures data[..env + 1] == old(data[..env0]) + text[..|text| - 1]
    {
      ghost var was := data[..];
      env := env0;
      var nxt := from;
      while true
        invariant env0 <= env && env - env0 == nxt - from < |text| - 1
        invariant data[..env0] == was[..env0]
        invariant forall i :: env0 <= i < env ==> data[i] == text[i - env0]
        invariant forall i :: env <= i < data.Length ==> data[i] == was[i]
        decreases |text| - (env - env0)
      {
        ghost var t := env - env0;
        assert was[from..from + |text|][t] == was[nxt] && was[from..from + |text|][t + 1] == was[nxt + 1];
        data[env] := data[nxt];
        nxt := nxt + 1;
        if data[env] == NUL && data[nxt] == NUL {
          break;
        }
        env := env + 1;
      }
    }

    /** Moving what follows entry k over it; the list but for its last NUL ends at `env`. */
    method CloseGap(env0: nat, nxt0: nat, ghost k: nat) returns (env: nat)
      requires Valid() && k < |entries|
      requires env0 == |Block(entries[..k])| && nxt0 == env0 + |entries[k]|
      modifies data
      ensures env + 1 < data.Length
      ensures EntriesOk(Without(entries, k))
        && data[..env + 1] == Encode(Without(entries, k))[..|Encode(Without(entries, k))| - 1]
    {
      hide Block, Encode, Unique, EntryOk, NameOf, OneDoubleNul, Without;
      ghost var text := Block(entries[k + 1..]) + [NUL];
      DeleteLayout(data[..], entries, k);
      WithoutOk(entries, k);
      WithoutLayout(data[..], entries, k);
      env := env0;
      var nxt := nxt0 + 1;
      if data[nxt] == NUL {
        if env > 0 {
          env := env - 1;
        } else {
          data[env] := NUL;
        }
      } else {
        env := Shift(env, nxt, text);
      }
    }

    /** The deletion of _do_setenv: entry k stands at env0, and nxt0 is its closing NUL. */
    method Delete(env0: nat, nxt0: nat, ghost k: nat)
      requires Valid() && k < |entries|
      requires env0 == |Block(entries[..k])| && nxt0 == env0 + |entries[k]|
      modifies this, data
      ensures Valid() && entries == Without(old(entries), k)
    {
      hide Block, Encode, Unique, EntryOk, NameOf, Without;
      ghost var out := Encode(Without(entries, k));
      WithoutOk(entries, k);
      EncodeWithout(entries, k);
      var env := CloseGap(env0, nxt0, k);
      env := env + 1;
      data[env] := NUL;
      assert data[..env] == out[..|out| - 1] && out == out[..|out| - 1] + [NUL];
      assert data[..env + 1] == data[..env] + [NUL];
      entries := Without(entries, k);
    }

    /** The scan for the place where a new definition goes. */
    method FindEnd() returns (env: nat)
      requires Valid()
      ensures env == |Block(entries)| && |Encode(entries)| <= data.Length
    {
      hide Block, Encode, Unique;
      ghost var text := Encode(entries);
      EncodeShape(entries);
      assert data[..][..|text|] == text;
      env := 0;
      while data[env] != NUL || data[env + 1] != NUL
        invariant env + 1 < |text|
        decreases |text| - env
      {
        assert text[env] == data[env] && text[env + 1] == data[env + 1];
        env := env + 1;
      }
      assert text[env] == data[env] && text[env + 1] == data[env + 1];
      if env > 0 {
        env := env + 1;
      }
    }

    /** Copy a text with its NUL; the result is where that NUL stands. */
    method Put(env0: nat, s: string) returns (env: nat)
      requires env0 + |s| < data.Length && NUL !in s
      modifies data
      ensures env == env0 + |s| && data[env] == NUL
      ensures data[..env] == old(data[..env0]) + s
    {
      var i := 0;
      env := env0;
      while i < |s|
        invariant 0 <= i <= |s| && env == env0 + i
        invariant data[..env] == old(data[..env0]) + s[..i]
      {
        data[env] := s[i];
        assert data[..env + 1] == data[..env] + [s[i]];
        env := env + 1;
        i := i + 1;
      }
      data[env] := NUL;
    }

    /** The length a definition needs, its two closing NULs included. */
    static method NeededLength(name: string, args: seq<string>) returns (len: nat)
      ensures len == |Entry(name, args)| + 2
    {
      len := |name| + 2;
      var i := 0;
      assert args[0..] == args;
      while i < |args|
        invariant 0 <= i <= |args|
        invariant len + |Tail(args[i..], if i == 0 then '=' else ' ')| == |Entry(name, args)| + 2
      {
        assert args[i..][1..] == args[i + 1..];
        len := len + |args[i]| + 1;
        i := i + 1;
      }
    }

    /** The copying loops of _do_setenv, at env. */
    method PutEntry(env0: nat, name: string, args: seq<string>) returns (env: nat)
      requires NUL !in name && forall i :: 0 <= i < |args| ==> NUL !in args[i]
      requires env0 + |Entry(name, args)| + 2 <= data.Length
      modifies data
      ensures env == env0 + |Entry(name, args)| && data[env] == NUL
      ensures data[..env] == old(data[..env0]) + Entry(name, args)
    {
      ghost var target := data[..env0] + Entry(name, args);
      env := Put(env0, name);
      var i := 0;
      assert args[0..] == args;
      assert data[..env] + Tail(args, '=') == target;
      while i < |args|
        invariant 0 <= i <= |args| && env <= |target| && |target| + 2 <= data.Length
        invariant data[..env] + Tail(args[i..], if i == 0 then '=' else ' ') == target
        invariant data[env] == NUL
      {
        ghost var before, rest := data[..env], Tail(args[i + 1..], ' ');
        var sep := if i == 0 then '=' else ' ';
        assert args[i..][1..] == args[i + 1..];
        assert before + Tail(args[i..], sep) == before + [sep] + args[i] + rest;
        data[env] := sep;
        env := env + 1;
        assert data[..env] == before + [sep];
        env := Put(env, args[i]);
        i := i + 1;
      }
      assert data[..env] == target;
    }

    /** The overflow check and the appending half of _do_setenv. */
    method AppendEntry(name: string, args: seq<string>) returns (r: int)
      requires Valid() && NUL !in name && '=' !in name && args != []
      requires forall i :: 0 <= i < |args| ==> NUL !in args[i]
      requires forall i :: 0 <= i < |entries| ==> NameOf(entries[i]) != name
      modifies this, data
      ensures Valid() && (r, entries) == Append(data.Length, old(entries), name, args)
    {
      hide Block, Encode, Unique, NameOf, EntryOk, Entry;
      var env: nat := FindEnd();
      var len := NeededLength(name, args);
      if len > data.Length - env {
        return 1;
      }
      BlockInData(data[..], entries);
      env := PutEntry(env, name, args);
      env := env + 1;
      data[env] := NUL;
      assert data[..env + 1] == Block(entries) + Entry(name, args) + [NUL, NUL];
      AppendedOk(data[..], entries, name, args);
      entries := entries + [Entry(name, args)];
      r := 0;
    }

    /** _do_setenv; true as `accepted` means that the device behind a hooked name took the change. */
    method DoSetenv(name: string, args: seq<string>, accepted: bool) returns (r: int)
      requires Valid() && NUL !in name && forall i :: 0 <= i < |args| ==> NUL !in args[i]
      modifies this, data
      ensures Valid() && (r, entries) == SetEnv(data.Length, old(entries), name, args, accepted)
    {
      hide Block, Encode, Unique, NameOf, EntryOk, Append;
      if '=' in name {
        return 1;
      }
      KeyIs(name, |name|);
      var found, env, nxt, k := Search(name);
      if found {
        if WriteOnce(name) {
          return 1;
        }
        if Console(name) && args == [] {
          return 1;
        }
        if Hooked(name) && !accepted {
          return 1;
        }
        NoOther(entries, k, name);
        Delete(env, nxt, k);
      }
      if args == [] {
        AppendNothing(data.Length, entries, name);
        return 0;
      }
      r := AppendEntry(name, args);
    }
  }
}
