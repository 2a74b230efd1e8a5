/** What the setenv of common/cmd_nvedit.c means: an ordered map in which two names are write-once. */
module EnvMap {
  import opened CText
  import opened EnvStore

  function OneOther(e: string, name: string): seq<string>
    requires EntryOk(e)
  {
    if NameOf(e) == name then [] else [e]
  }

  /** The bindings of all names but one, in order. */
  function Others(es: seq<string>, name: string): seq<string>
    requires EntriesOk(es)
  {
    if es == [] then []
    else OneOther(es[0], name) + Others(es[1..], name)
  }

  lemma {:induction false} OthersConcat(a: seq<string>, b: seq<string>, name: string)
    requires EntriesOk(a) && EntriesOk(b)
    ensures EntriesOk(a + b) && Others(a + b, name) == Others(a, name) + Others(b, name)
  {
    hide OneOther, NameOf, EntryOk;
    if a == [] {
      assert a + b == b;
    } else {
      assert (a + b)[1..] == a[1..] + b && (a + b)[0] == a[0];
      OthersConcat(a[1..], b, name);
    }
  }

  lemma {:induction false} OthersAll(es: seq<string>, name: string)
    requires EntriesOk(es) && forall i :: 0 <= i < |es| ==> NameOf(es[i]) != name
    ensures Others(es, name) == es
  {
    hide NameOf, EntryOk;
    if es != [] {
      OthersAll(es[1..], name);
    }
  }

  lemma {:induction false} FindNameIs(es: seq<string>, name: string, k: nat)
    requires EntriesOk(es) && Unique(es) && k < |es| && NameOf(es[k]) == name
    ensures FindName(es, name) == Some(k)
  {
    hide NameOf, EntryOk;
  }

  lemma PiecesOk(es: seq<string>, k: nat)
    requires EntriesOk(es) && k < |es|
    ensures EntryOk(es[k]) && '=' in es[k]
    ensures EntriesOk(es[..k]) && EntriesOk(es[k + 1..]) && EntriesOk([es[k]]) && EntriesOk([es[k]] + es[k + 1..])
    ensures EntriesOk(Without(es, k))
  {
    var out := Without(es, k);
    assert forall i :: 0 <= i < |out| ==> out[i] == es[if i < k then i else i + 1];
  }

  lemma OthersOne(e: string)
    requires EntryOk(e)
    ensures Others([e], NameOf(e)) == []
  {
  }

  lemma {:induction false} OthersMiddle(es: seq<string>, k: nat)
    requires EntriesOk(es) && k < |es|
    ensures EntryOk(es[k]) && EntriesOk(Without(es, k))
    ensures Others(Without(es, k), NameOf(es[k])) == Others(es, NameOf(es[k]))
  {
    hide NameOf, Others, EntriesOk, EntryOk;
    PiecesOk(es, k);
    var pre, e, post := es[..k], es[k], es[k + 1..];
    SplitAt(es, k);
    OthersConcat(pre, post, NameOf(e));
    OthersConcat([e], post, NameOf(e));
    OthersConcat(pre, [e] + post, NameOf(e));
    OthersOne(e);
  }

  lemma WithoutLength(es: seq<string>, k: nat)
    requires k < |es|
    ensures |Without(es, k)| == |es| - 1
  {
  }

  lemma WithoutIndex(es: seq<string>, k: nat, i: nat)
    requires k < |es| && i < |es| && i != k
    ensures var j := if i < k then i else i - 1; j < |Without(es, k)| && Without(es, k)[j] == es[i]
  {
  }

  lemma {:induction false} FindWithout(es: seq<string>, k: nat, n: string)
    requires EntriesOk(es) && Unique(es) && k < |es|
    ensures EntriesOk(Without(es, k)) && EntryOk(es[k])
    ensures var out := Without(es, k);
      |out| == |es| - 1 &&
      match FindName(out, n)
      case None => n == NameOf(es[k]) || FindName(es, n) == None
      case Some(j) => n != NameOf(es[k]) && FindName(es, n) == Some(if j < k then j else j + 1)
                      && out[j] == es[if j < k then j else j + 1]
  {
    hide NameOf, FindName, Without;
    PiecesOk(es, k);
    WithoutLength(es, k);
    NoOther(es, k, NameOf(es[k]));
    var out := Without(es, k);
    match FindName(out, n) {
      case None =>
        if FindName(es, n).Some? && FindName(es, n).value != k {
          WithoutIndex(es, k, FindName(es, n).value);
        }
      case Some(j) =>
        var i := if j < k then j else j + 1;
        WithoutIndex(es, k, i);
        FindNameIs(es, n, i);
    }
  }

  /** Deleting an entry loses its name and nothing else. */
  lemma {:induction false} LookupWithout(es: seq<string>, k: nat, n: string)
    requires EntriesOk(es) && Unique(es) && k < |es|
    ensures EntriesOk(Without(es, k)) && Unique(Without(es, k)) && EntryOk(es[k])
    ensures Lookup(Without(es, k), n) == if n == NameOf(es[k]) then None else Lookup(es, n)
    ensures Others(es, NameOf(es[k])) == Others(Without(es, k), NameOf(es[k])) == Without(es, k)
  {
    hide NameOf, ValueOf, Unique, Others, FindName, EntryOk, Without;
    PiecesOk(es, k);
    WithoutOk(es, k);
    NoOther(es, k, NameOf(es[k]));
    OthersAll(Without(es, k), NameOf(es[k]));
    OthersMiddle(es, k);
    FindWithout(es, k, n);
  }

  /** Appending a new name binds it, last, and changes no other. */
  lemma {:induction false} LookupAppend(es: seq<string>, name: string, args: seq<string>, n: string)
    requires EntriesOk(es) && Unique(es) && NUL !in name && '=' !in name && args != []
    requires forall i :: 0 <= i < |args| ==> NUL !in args[i]
    requires forall i :: 0 <= i < |es| ==> NameOf(es[i]) != name
    ensures var out := es + [Entry(name, args)];
      && EntriesOk(out) && Unique(out)
      && Lookup(out, n) == (if n == name then Some(Join(args)) else Lookup(es, n))
      && Others(out, name) == Others(es, name)
  {
    hide NameOf, ValueOf, EntryOk, Entry, Unique, Others;
    var e := Entry(name, args);
    var out := es + [e];
    EntryParts(name, args);
    OkAppend(es, e);
    OthersConcat(es, [e], name);
    OthersOne(e);
    if n == name {
      FindNameIs(out, n, |es|);
    } else {
      match FindName(es, n) {
        case None =>
        case Some(i) =>
          assert out[i] == es[i];
          FindNameIs(out, n, i);
      }
    }
  }

  predicate NulFreeCall(name: string, args: seq<string>) {
    NUL !in name && forall i :: 0 <= i < |args| ==> NUL !in args[i]
  }

  lemma {:induction false} FitsExactly(size: nat, es: seq<string>, name: string, args: seq<string>)
    ensures Fits(size, es, name, args) <==> |Encode(es + [Entry(name, args)])| <= size
  {
    hide Block, Entry;
    var e := Entry(name, args);
    BlockConcat(es, [e]);
    BlockCons(e, []);
    BlockNil();
    EncodeSome(es + [e]);
    assert [e] + [] == [e];
  }

  /** Why a call may change nothing at all. */
  predicate Refused(es: seq<string>, name: string, args: seq<string>, accepted: bool)
    requires EntriesOk(es)
  {
    '=' in name
    || (Lookup(es, name).Some?
        && (name in ["serial#", "ethaddr"]
            || (name in ["stdin", "stdout", "stderr"] && (args == [] || !accepted))
            || (name == "baudrate" && !accepted)))
  }

  /** One call of setenv is one step of an ordered map. */
  lemma {:induction false} SetEnvStep(size: nat, es: seq<string>, name: string, args: seq<string>, accepted: bool,
                                      n: string)
    requires EntriesOk(es) && Unique(es) && NulFreeCall(name, args)
    ensures var (r, out) := SetEnv(size, es, name, args, accepted);
      && EntriesOk(out) && Unique(out)
      // every other name keeps its binding, and all of them their order
      && (n != name ==> Lookup(out, n) == Lookup(es, n))
      && Others(out, name) == Others(es, name)
      // a refused call changes nothing and fails
      && (Refused(es, name, args, accepted) ==> r == 1 && out == es)
      // any other call succeeds unless the new definition does not fit; then the old one is lost
      && (!Refused(es, name, args, accepted) ==>
          && (r == 0 <==> args == [] || |Encode(Others(es, name) + [Entry(name, args)])| <= size)
          && Lookup(out, name) == (if args == [] || r != 0 then None else Some(Join(args)))
          && (r == 0 && args != [] ==> out == Others(es, name) + [Entry(name, args)]))
  {
    hide NameOf, ValueOf, EntryOk, Entry, Unique, Others, Fits, Encode;
    if '=' !in name {
      FitsExactly(size, Others(es, name), name, args);
      match FindName(es, name) {
        case None =>
          OthersAll(es, name);
          if args != [] { LookupAppend(es, name, args, n); LookupAppend(es, name, args, name); }
        case Some(k) =>
          if !Refused(es, name, args, accepted) {
            LookupWithout(es, k, n);
            LookupWithout(es, k, name);
            NoOther(es, k, name);
            if args != [] {
              LookupAppend(Without(es, k), name, args, n);
              LookupAppend(Without(es, k), name, args, name);
            }
          }
      }
    }
  }

  // ---------- whole runs ----------

  datatype Call = Call(name: string, args: seq<string>, accepted: bool)

  predicate Calls(calls: seq<Call>) {
    forall i :: 0 <= i < |calls| ==> NulFreeCall(calls[i].name, calls[i].args)
  }

  /** The entries after a run of calls. */
  function Run(size: nat, es: seq<string>, calls: seq<Call>): seq<string>
    requires EntriesOk(es) && Unique(es) && Calls(calls)
    decreases calls
  {
    if calls == [] then es
    else
      var c := calls[0];
      SetEnvStep(size, es, c.name, c.args, c.accepted, c.name);
      Run(size, SetEnv(size, es, c.name, c.args, c.accepted).1, calls[1..])
  }

  /** Once serial# or ethaddr has a value, it keeps it through every run of sets,
      deletes, refusals and overflows. */
  lemma {:induction false} WriteOnceForever(size: nat, es: seq<string>, calls: seq<Call>, n: string)
    requires EntriesOk(es) && Unique(es) && Calls(calls)
    requires n in ["serial#", "ethaddr"] && Lookup(es, n).Some?
    ensures EntriesOk(Run(size, es, calls)) && Lookup(Run(size, es, calls), n) == Lookup(es, n)
    decreases calls
  {
    hide SetEnv, Unique, EntryOk, Lookup, Others, Fits;
    if calls != [] {
      var c := calls[0];
      SetEnvStep(size, es, c.name, c.args, c.accepted, n);
      WriteOnceForever(size, SetEnv(size, es, c.name, c.args, c.accepted).1, calls[1..], n);
    }
  }

  /** A run of calls on the byte array. */
  method SetAll(store: Store, calls: seq<Call>)
    requires store.Valid() && Calls(calls)
    modifies store, store.data
    ensures store.Valid() && EntriesOk(old(store.entries)) && Unique(old(store.entries))
    ensures store.entries == Run(store.data.Length, old(store.entries), calls)
  {
    hide SetEnv, Unique, EntryOk, Encode;
    ghost var size, first := store.data.Length, store.entries;
    var i := 0;
    assert calls[0..] == calls;
    while i < |calls|
      invariant 0 <= i <= |calls| && store.Valid()
      invariant Run(size, first, calls) == Run(size, store.entries, calls[i..])
    {
      var c := calls[i];
      assert NulFreeCall(c.name, c.args);
      assert calls[i..][0] == c && calls[i..][1..] == calls[i + 1..];
      var _ := store.DoSetenv(c.name, c.args, c.accepted);
      i := i + 1;
    }
  }

  lemma WriteOnceName(n: string)
    requires n in ["serial#", "ethaddr"]
    ensures NUL !in n && KeyOf(n) == n
  {
  }

  /** However the environment is set in between, getenv of serial# or ethaddr points at the first value. */
  method ValueStays(store: Store, calls: seq<Call>, n: string) returns (r: Option<nat>)
    requires store.Valid() && Calls(calls) && n in ["serial#", "ethaddr"] && Lookup(store.entries, n).Some?
    modifies store, store.data
    ensures store.Valid() && EntriesOk(old(store.entries))
    ensures r.Some? && TextAt(store.data[..], r.value, Lookup(old(store.entries), n).value)
  {
    hide Unique, EntryOk, Encode, Lookup, Run, TextAt;
    WriteOnceForever(store.data.Length, store.entries, calls, n);
    WriteOnceName(n);
    SetAll(store, calls);
    r := store.Getenv(n);
  }
}
