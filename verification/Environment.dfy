/**
  Environment injection of src/shim/process.c, as it means something to the
  program that gets the environment: which entries are appended, and what every
  variable then looks up to. Module InjectedEnv is the code.
 */
module Environment {
  import opened Basics

  // ---- Meaning --------------------------------------------------------------------

  /** A runtime variable and what `getenv` returned for it. */
  datatype Binding = Binding(name: string, value: Option<string>)

  const RUNTIME_NAMES: seq<string> := ["LD_PRELOAD", "LINBOX_SOCK", "LINBOX_SHM", "LINBOX_DISABLE_SECCOMP"]

  /** The test of the search loops: the name, then '='. */
  predicate HasName(entry: string, name: string) {
    |entry| > |name| && entry[..|name|] == name && entry[|name|] == '='
  }

  predicate Binds(entries: seq<string>, name: string) {
    exists i | 0 <= i < |entries| :: HasName(entries[i], name)
  }

  /** `getenv` in a given environment: the value of the first entry for the name. */
  function Lookup(entries: seq<string>, name: string): Option<string> {
    if entries == [] then None
    else if HasName(entries[0], name) then Some(entries[0][|name| + 1..])
    else Lookup(entries[1..], name)
  }

  function Set(b: Binding): bool {
    b.value.Some? && b.value.value != ""
  }

  function Entry(b: Binding): string
    requires b.value.Some?
  {
    b.name + "=" + b.value.value
  }

  /** The entries to append, in the order of the variables. */
  function Missing(entries: seq<string>, needed: seq<Binding>): seq<string> {
    if needed == [] then []
    else
      var b := needed[|needed| - 1];
      Missing(entries, needed[..|needed| - 1]) + Added(entries, b)
  }

  function Injected(entries: seq<string>, needed: seq<Binding>): seq<string> {
    entries + Missing(entries, needed)
  }

  /** Pairwise different names without '='. */
  predicate WellNamed(needed: seq<Binding>) {
    && (forall i | 0 <= i < |needed| :: '=' !in needed[i].name)
    && (forall i, j | 0 <= i < j < |needed| :: needed[i].name != needed[j].name)
  }

  lemma RuntimeNamesWellNamed(needed: seq<Binding>)
    requires |needed| == 4 && needed[0].name == "LD_PRELOAD" && needed[1].name == "LINBOX_SOCK"
    requires needed[2].name == "LINBOX_SHM" && needed[3].name == "LINBOX_DISABLE_SECCOMP"
    ensures WellNamed(needed)
  {
    assert forall i | 0 <= i < 4 :: needed[i].name == RUNTIME_NAMES[i];
    hide RUNTIME_NAMES;
    NamesWithoutEquals();
    NamesDiffer();
  }

  lemma NamesWithoutEquals()
    ensures forall i | 0 <= i < 4 :: '=' !in RUNTIME_NAMES[i]
  {}

  lemma NamesDiffer()
    ensures forall i, j | 0 <= i < j < 4 :: RUNTIME_NAMES[i] != RUNTIME_NAMES[j]
  {
    var a, b, c, d := RUNTIME_NAMES[0], RUNTIME_NAMES[1], RUNTIME_NAMES[2], RUNTIME_NAMES[3];
    assert |a| == 10 && |b| == 11 && |c| == 10 && |d| == 22;
    assert a[1] == 'D' && c[1] == 'I';
  }

  /** The value of the first entry that begins with the name and an '='. */
  lemma {:induction false} LookupIsFirstEntry(entries: seq<string>, name: string)
    ensures match Lookup(entries, name)
            case Some(v) =>
              exists i | 0 <= i < |entries| ::
                entries[i] == name + "=" + v && forall j | 0 <= j < i :: !(name + "=" <= entries[j])
            case None => forall j | 0 <= j < |entries| :: !(name + "=" <= entries[j])
  {
    if entries != [] {
      var e := entries[0];
      NameIsPrefix(e, name);
      if HasName(e, name) {
        assert e == name + "=" + e[|name| + 1..];
      } else {
        LookupIsFirstEntry(entries[1..], name);
        if Lookup(entries, name).Some? {
          var v := Lookup(entries, name).value;
          var i :| 0 <= i < |entries[1..]| && entries[1..][i] == name + "=" + v
                   && forall j | 0 <= j < i :: !(name + "=" <= entries[1..][j]);
          assert entries[i + 1] == name + "=" + v;
          forall j | 0 <= j < i + 1
            ensures !(name + "=" <= entries[j])
          {
            assert j > 0 ==> entries[j] == entries[1..][j - 1];
          }
        } else {
          forall j | 0 <= j < |entries|
            ensures !(name + "=" <= entries[j])
          {
            assert j > 0 ==> entries[j] == entries[1..][j - 1];
          }
        }
      }
    }
  }

  lemma NameIsPrefix(e: string, name: string)
    ensures HasName(e, name) <==> name + "=" <= e
  {
    var p := name + "=";
    assert p[..|name|] == name;
    if HasName(e, name) {
      assert e[..|p|] == e[..|name|] + [e[|name|]];
    }
    assert p <= e ==> e[..|name|] == p[..|name|];
  }

  lemma {:induction false} LookupConcat(a: seq<string>, b: seq<string>, name: string)
    ensures Lookup(a + b, name) == if Binds(a, name) then Lookup(a, name) else Lookup(b, name)
    ensures Lookup(a, name).Some? <==> Binds(a, name)
  {
    if a == [] {
      assert a + b == b;
    } else {
      LookupConcat(a[1..], b, name);
      assert (a + b)[1..] == a[1..] + b;
      assert Binds(a, name) <==> HasName(a[0], name) || Binds(a[1..], name) by {
        if i :| 0 <= i < |a| && HasName(a[i], name) {
          assert i > 0 ==> a[1..][i - 1] == a[i];
        }
      }
    }
  }

  lemma EntryHasName(b: Binding, name: string)
    requires b.value.Some? && '=' !in b.name && '=' !in name
    ensures HasName(Entry(b), name) <==> name == b.name
    ensures Entry(b)[|b.name| + 1..] == b.value.value
  {
    var e := Entry(b);
    assert e[..|b.name|] == b.name && e[|b.name|] == '=';
    if |name| < |b.name| {
      assert e[|name|] == b.name[|name|] && b.name[|name|] in b.name;
    } else if |name| > |b.name| {
      assert name[|b.name|] in name;
      assert |e| > |name| ==> e[..|name|][|b.name|] == '=';
    }
  }

  function Added(entries: seq<string>, b: Binding): seq<string> {
    if Set(b) && !Binds(entries, b.name) then [Entry(b)] else []
  }

  lemma LookupAdded(entries: seq<string>, b: Binding, name: string)
    requires '=' !in b.name && '=' !in name
    ensures Lookup(Added(entries, b), name) ==
            if name == b.name && Set(b) && !Binds(entries, name) then b.value else None
  {
    hide Binds;
    if Added(entries, b) != [] {
      EntryHasName(b, name);
      assert [Entry(b)][1..] == [];
    }
  }

  /** The appended entries bind exactly the set runtime variables the environment lacked. */
  lemma {:induction false} LookupMissing(entries: seq<string>, needed: seq<Binding>, name: string)
    requires WellNamed(needed) && '=' !in name
    ensures forall i | 0 <= i < |needed| && needed[i].name == name ::
              Lookup(Missing(entries, needed), name) ==
              if Set(needed[i]) && !Binds(entries, name) then needed[i].value else None
    ensures (forall i | 0 <= i < |needed| :: needed[i].name != name) ==> Lookup(Missing(entries, needed), name).None?
  {
    hide Binds, Added, Set;
    if needed != [] {
      var last := |needed| - 1;
      var b := needed[last];
      LookupMissing(entries, needed[..last], name);
      LookupConcat(Missing(entries, needed[..last]), Added(entries, b), name);
      LookupAdded(entries, b, name);
    }
  }

  /** Injection preserves meaning: the original entries stay in front, a variable the environment
      binds keeps its value, a runtime variable it lacked gets the shim's value if that is not empty
      and stays unbound otherwise, and every other name looks up as before. */
  lemma InjectionPreservesMeaning(entries: seq<string>, needed: seq<Binding>, name: string)
    requires WellNamed(needed) && '=' !in name
    ensures entries <= Injected(entries, needed)
    ensures Lookup(entries, name).Some? ==> Lookup(Injected(entries, needed), name) == Lookup(entries, name)
    ensures forall i | 0 <= i < |needed| && needed[i].name == name && Lookup(entries, name).None? ::
              Lookup(Injected(entries, needed), name) ==
              match needed[i].value
              case Some(v) => if |v| > 0 then Some(v) else None
              case None => None
    ensures (forall i | 0 <= i < |needed| :: needed[i].name != name) ==>
              Lookup(Injected(entries, needed), name) == Lookup(entries, name)
  {
    LookupConcat(entries, Missing(entries, needed), name);
    LookupMissing(entries, needed, name);
  }

  /** The binding has a value to pass on that the environment lacks. */
  ghost predicate Lacks(entries: seq<string>, b: Binding) {
    b.value.Some? && |b.value.value| > 0 && Lookup(entries, b.name).None?
  }

  /** Entry `e` passes on the binding. */
  ghost predicate PassesOn(entries: seq<string>, b: Binding, e: string) {
    Lacks(entries, b) && e == b.name + "=" + b.value.value
  }

  /** Exactly the bindings with a nonempty value whose name the environment lacks are appended, each
      once and in their order, as name, '=' and value. */
  lemma {:induction false} AppendedExactly(entries: seq<string>, needed: seq<Binding>) returns (from: seq<nat>)
    ensures |from| == |Missing(entries, needed)|
    ensures forall k | 0 <= k < |from| ::
              from[k] < |needed| && PassesOn(entries, needed[from[k]], Missing(entries, needed)[k])
    ensures forall k, l | 0 <= k < l < |from| :: from[k] < from[l]
    ensures forall i | 0 <= i < |needed| && Lacks(entries, needed[i]) :: i in from
  {
    if needed == [] {
      from := [];
    } else {
      var init, b := needed[..|needed| - 1], needed[|needed| - 1];
      hide Added, Lacks, PassesOn, Missing;
      var before := AppendedExactly(entries, init);
      MissingLast(entries, needed);
      AddedExactly(entries, b);
      assert needed == init + [b];
      if Lacks(entries, b) {
        from := OneMoreAppended(entries, init, b, Missing(entries, init), before, Added(entries, b)[0]);
      } else {
        from := before;
      }
    }
  }

  lemma MissingLast(entries: seq<string>, needed: seq<Binding>)
    requires needed != []
    ensures Missing(entries, needed) ==
            Missing(entries, needed[..|needed| - 1]) + Added(entries, needed[|needed| - 1])
  {}

  lemma OneMoreAppended(entries: seq<string>, needed: seq<Binding>, b: Binding, appended: seq<string>,
                        from: seq<nat>, e: string) returns (more: seq<nat>)
    requires |from| == |appended| && PassesOn(entries, b, e)
    requires forall k | 0 <= k < |from| :: from[k] < |needed| && PassesOn(entries, needed[from[k]], appended[k])
    ensures more == from + [|needed|]
    ensures forall k | 0 <= k < |more| ::
              more[k] < |needed + [b]| && PassesOn(entries, (needed + [b])[more[k]], (appended + [e])[k])
  {
    hide PassesOn;
    more := from + [|needed|];
  }

  lemma AddedExactly(entries: seq<string>, b: Binding)
    ensures |Added(entries, b)| == if Lacks(entries, b) then 1 else 0
    ensures Lacks(entries, b) ==> PassesOn(entries, b, Added(entries, b)[0])
  {
    hide Binds, Lookup, HasName;
    LookupConcat(entries, [], b.name);
  }

  /** Injecting a second time adds nothing. */
  lemma InjectionIsIdempotent(entries: seq<string>, needed: seq<Binding>)
    requires WellNamed(needed)
    ensures Injected(Injected(entries, needed), needed) == Injected(entries, needed)
  {
    var once := Injected(entries, needed);
    forall i | 0 <= i < |needed| && Set(needed[i])
      ensures Binds(once, needed[i].name)
    {
      InjectionPreservesMeaning(entries, needed, needed[i].name);
      LookupConcat(once, [], needed[i].name);
    }
    NothingMissing(once, needed);
  }

  /** Nothing is appended exactly when every set variable is bound already. */
  lemma {:induction false} NothingMissing(entries: seq<string>, needed: seq<Binding>)
    ensures Missing(entries, needed) == []
            <==> forall i | 0 <= i < |needed| && Set(needed[i]) :: Binds(entries, needed[i].name)
  {
    hide Binds;
    if needed != [] {
      var last := |needed| - 1;
      NothingMissing(entries, needed[..last]);
      assert forall i | 0 <= i < last :: needed[..last][i] == needed[i];
    }
  }

  lemma MissingStep(entries: seq<string>, needed: seq<Binding>, i: nat)
    requires i < |needed|
    ensures Missing(entries, needed[..i + 1]) == Missing(entries, needed[..i]) + Added(entries, needed[i])
    ensures Added(entries, needed[i]) == [] ==> Missing(entries, needed[..i + 1]) == Missing(entries, needed[..i])
    ensures |Missing(entries, needed[..i + 1])| <= |Missing(entries, needed)|
  {
    assert needed[..i + 1][..i] == needed[..i];
    MissingGrows(entries, needed, i + 1);
  }

  lemma {:induction false} MissingGrows(entries: seq<string>, needed: seq<Binding>, i: nat)
    requires i <= |needed|
    ensures Missing(entries, needed[..i]) <= Missing(entries, needed)
    decreases |needed| - i
  {
    if i == |needed| {
      assert needed[..i] == needed;
    } else {
      MissingGrows(entries, needed, i + 1);
      assert needed[..i + 1][..i] == needed[..i];
    }
  }
}
