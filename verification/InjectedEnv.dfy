/**
  The code of src/shim/process.c that builds and frees an injected environment.

  A string is an object, an environment is a NULL-terminated array of strings,
  and the heap records which objects are allocated. Allocation number `grants`
  of an injection (counting from 0) is the first that fails.
 */
module InjectedEnv {
  import opened Basics
  import opened Environment

  /** A C string and, for one from `malloc`, the number of bytes allocated for it. */
  class CString {
    const text: string
    const size: nat

    constructor (text: string, size: nat)
      requires |text| < size
      ensures this.text == text && this.size == size
    {
      this.text, this.size := text, size;
    }
  }

  /** What `snprintf` leaves of a text in a buffer of `size` bytes, next to the terminating NUL. */
  function Printed(text: string, size: nat): (s: string)
    requires size > 0
    ensures |s| < size && (|text| < size ==> s == text)
  {
    if |text| < size then text else text[..size - 1]
  }

  type Entries = seq<CString?>

  class Heap {
    ghost var live: set<object>

    /** `malloc` of `size` bytes and `snprintf` of `text` into them; NULL when the allocation is
        not granted. */
    method NewString(text: string, size: nat, granted: bool) returns (s: CString?)
      requires size > 0
      modifies this
      ensures granted <==> s != null
      ensures s != null ==> fresh(s) && s.text == Printed(text, size) && s.size == size && live == old(live) + {s}
      ensures s == null ==> live == old(live)
    {
      s := null;
      if granted {
        s := new CString(Printed(text, size), size);
        live := live + {s};
      }
    }

    /** `calloc` of an array of pointers, all NULL. */
    method NewArray(length: nat, granted: bool) returns (a: array?<CString?>)
      modifies this
      ensures granted <==> a != null
      ensures a != null ==>
                fresh(a) && a.Length == length && (forall i | 0 <= i < length :: a[i] == null) && live == old(live) + {a}
      ensures a == null ==> live == old(live)
    {
      a := null;
      if granted {
        a := new CString?[length](_ => null);
        live := live + {a};
      }
    }

    /** `free`: only of what is allocated, so nothing is freed twice. */
    method Free(p: object)
      requires p in live
      modifies this
      ensures live == old(live) - {p}
    {
      live := live - {p};
    }
  }

  /** The number of entries before the terminating NULL. */
  function CountOf(a: Entries): (n: nat)
    ensures n <= |a|
    ensures forall i | 0 <= i < n :: a[i] != null
    ensures n < |a| ==> a[n] == null
  {
    if a == [] || a[0] == null then 0 else 1 + CountOf(a[1..])
  }

  /** NULL stands for an empty environment; anything else has a terminator. */
  ghost predicate Terminated(envp: array?<CString?>)
    reads envp
  {
    envp != null ==> CountOf(envp[..]) < envp.Length
  }

  ghost function Strings(envp: array?<CString?>): (s: seq<CString?>)
    reads envp
    ensures forall i | 0 <= i < |s| :: s[i] != null
  {
    if envp == null then [] else envp[..CountOf(envp[..])]
  }

  ghost function Texts(s: seq<CString?>): (texts: seq<string>)
    requires forall i | 0 <= i < |s| :: s[i] != null
    ensures |texts| == |s|
  {
    seq(|s|, i requires 0 <= i < |s| => s[i].text)
  }

  lemma CountIs(a: Entries, n: nat)
    requires n < |a| && a[n] == null && forall i | 0 <= i < n :: a[i] != null
    ensures CountOf(a) == n
  {}

  method CountEntries(envp: array?<CString?>) returns (count: nat)
    requires Terminated(envp)
    ensures count == |Strings(envp)|
    ensures envp != null ==> count < envp.Length && envp[count] == null && Strings(envp) == envp[..count]
  {
    count := 0;
    if envp != null {
      while envp[count] != null
        invariant count < envp.Length && forall i | 0 <= i < count :: envp[i] != null
        decreases envp.Length - count
      {
        count := count + 1;
      }
      CountIs(envp[..], count);
    }
  }

  /** The inner search loop: is the name bound among the first `count` entries? */
  method Finds(envp: array?<CString?>, count: nat, name: string) returns (found: bool)
    requires Terminated(envp) && count == |Strings(envp)|
    ensures found <==> Binds(Texts(Strings(envp)), name)
  {
    ghost var texts := Texts(Strings(envp));
    for j := 0 to count
      invariant forall i | 0 <= i < j :: !HasName(texts[i], name)
    {
      assert texts[j] == envp[j].text;
      if HasName(envp[j].text, name) {
        return true;
      }
    }
    return false;
  }

  // ---- Building ---------------------------------------------------------------------

  ghost function Objects(strings: seq<CString>): set<object> {
    set i | 0 <= i < |strings| :: strings[i] as object
  }

  /** `merged` is the original entries, then the added strings, then NULL. */
  ghost predicate Merged(merged: array<CString?>, original: seq<CString?>, added: seq<CString>)
    reads merged
  {
    && merged.Length == |original| + |added| + 1
    && merged[..|original|] == original
    && (forall k | 0 <= k < |added| :: merged[|original| + k] == added[k])
    && merged[|original| + |added|] == null
  }

  /** The strings read as the texts and fill their allocations exactly. */
  ghost predicate HasTexts(strings: seq<CString>, texts: seq<string>) {
    |strings| == |texts| && forall k | 0 <= k < |strings| ::
                              strings[k].text == texts[k] && strings[k].size == |texts[k]| + 1
  }

  /** The entries an injection into `envp` has to append. */
  ghost function Wanted(envp: array?<CString?>, needed: seq<Binding>): seq<string>
    reads envp
  {
    Missing(Texts(Strings(envp)), needed)
  }

  lemma AddString(strings: seq<CString>, s: CString, texts: seq<string>)
    requires NoDuplicates(strings) && s as object !in Objects(strings) && HasTexts(strings, texts)
    requires s.size == |s.text| + 1
    ensures Objects(strings + [s]) == Objects(strings) + {s}
    ensures NoDuplicates(strings + [s]) && HasTexts(strings + [s], texts + [s.text])
  {
    var all := strings + [s];
    assert all[|strings|] == s;
    forall i | 0 <= i < |strings|
      ensures strings[i] as object in Objects(all) && strings[i] != s
    {
      assert all[i] == strings[i] && strings[i] as object in Objects(strings);
    }
  }

  lemma NoStrings()
    ensures Objects([]) == {} && NoDuplicates<CString>([]) && HasTexts([], [])
  {}

  lemma MergedIsInjected(merged: array<CString?>, original: seq<CString?>, added: seq<CString>, texts: seq<string>)
    requires forall i | 0 <= i < |original| :: original[i] != null
    requires Merged(merged, original, added) && HasTexts(added, texts)
    ensures Terminated(merged) && Texts(Strings(merged)) == Texts(original) + texts
  {
    var n := |original| + |added|;
    forall i | 0 <= i < n
      ensures merged[i] != null && merged[i].text == (Texts(original) + texts)[i]
    {
      if i < |original| {
        assert merged[..|original|][i] == original[i];
      } else {
        assert merged[|original| + (i - |original|)] == added[i - |original|];
      }
    }
    CountIs(merged[..], n);
  }

  /** The first pass: how many entries the environment lacks. */
  method CountMissing(envp: array?<CString?>, count: nat, needed: seq<Binding>) returns (missing: nat)
    requires Terminated(envp) && count == |Strings(envp)|
    ensures missing == |Wanted(envp, needed)|
  {
    ghost var texts := Texts(Strings(envp));
    missing := 0;
    for i := 0 to |needed|
      invariant missing == |Missing(texts, needed[..i])|
    {
      MissingStep(texts, needed, i);
      if !Set(needed[i]) {
        continue;
      }
      var found := Finds(envp, count, needed[i].name);
      if !found {
        missing := missing + 1;
      }
    }
    assert needed[..|needed|] == needed;
  }

  lemma EntryFits(b: Binding)
    requires b.value.Some?
    ensures |Entry(b)| + 1 == |b.name| + |b.value.value| + 2
  {}

  /** The second pass: appends the missing entries from index `count` on. When an allocation fails
      everything is released, the array included. */
  method AppendMissing(envp: array?<CString?>, count: nat, needed: seq<Binding>, merged: array<CString?>,
                       heap: Heap, grants: nat) returns (ok: bool, ghost added: seq<CString>)
    requires Terminated(envp) && count == |Strings(envp)| && merged != envp
    requires merged.Length == count + |Wanted(envp, needed)| + 1
    requires merged[..count] == Strings(envp) && forall k | count <= k < merged.Length :: merged[k] == null
    requires merged in heap.live && grants > 0
    modifies heap, merged
    ensures ok <==> |Wanted(envp, needed)| < grants
    ensures !ok ==> heap.live == old(heap.live) - {merged}
    ensures ok ==>
              && fresh(Objects(added)) && NoDuplicates(added)
              && Merged(merged, Strings(envp), added) && HasTexts(added, Wanted(envp, needed))
              && heap.live == old(heap.live) + Objects(added)
  {
    hide Missing, Entry, Printed, Binds, CountOf, Objects, NoDuplicates, HasTexts;
    NoStrings();
    added := [];
    ghost var texts, original := Texts(Strings(envp)), Strings(envp);
    assert needed[..0] == [] && Missing(texts, []) == [] by { NothingMissing(texts, []); }
    ghost var wanted := Wanted(envp, needed);
    var out := count;
    for i := 0 to |needed|
      invariant count <= out && |added| == out - count <= |wanted| && out - count < grants
      invariant merged[..count] == original
      invariant forall k | 0 <= k < |added| :: merged[count + k] == added[k]
      invariant forall k | out <= k < merged.Length :: merged[k] == null
      invariant |added| == |Missing(texts, needed[..i])| && HasTexts(added, Missing(texts, needed[..i]))
      invariant fresh(Objects(added)) && NoDuplicates(added)
      invariant heap.live == old(heap.live) + Objects(added)
    {
      MissingStep(texts, needed, i);
      if !Set(needed[i]) {
        continue;
      }
      var found := Finds(envp, count, needed[i].name);
      if found {
        continue;
      }
      var entryLen := |needed[i].name| + |needed[i].value.value| + 2;
      EntryFits(needed[i]);
      var s := heap.NewString(Entry(needed[i]), entryLen, out - count + 1 < grants);
      if s == null {
        ReleaseAll(merged, count, out, heap, added);
        return false, [];
      }
      merged[out] := s;
      AddString(added, s, Missing(texts, needed[..i]));
      added := added + [s];
      out := out + 1;
    }
    assert needed[..|needed|] == needed;
    merged[out] := null;
    ok := true;
  }

  /** `linbox_inject_runtime_env`. The result shares the original strings and owns the array and
      the added ones; NULL means either that an allocation failed, and then nothing stays allocated,
      or that a NULL environment needed nothing. */
  method InjectRuntimeEnv(envp: array?<CString?>, needed: seq<Binding>, heap: Heap, grants: nat)
    returns (merged: array?<CString?>, ghost added: seq<CString>)
    requires Terminated(envp)
    modifies heap
    ensures merged != null ==> Terminated(merged) && Texts(Strings(merged)) == Injected(Texts(Strings(envp)), needed)
    ensures Wanted(envp, needed) == [] ==> merged == envp && added == [] && heap.live == old(heap.live)
    ensures Wanted(envp, needed) != [] ==>
              (merged == null <==> grants < |Wanted(envp, needed)| + 1)
    ensures Wanted(envp, needed) != [] && merged == null ==> heap.live == old(heap.live)
    ensures Wanted(envp, needed) != [] && merged != null ==>
              && fresh(merged) && fresh(Objects(added)) && NoDuplicates(added)
              && Merged(merged, Strings(envp), added) && HasTexts(added, Wanted(envp, needed))
              && heap.live == old(heap.live) + {merged} + Objects(added)
  {
    added := [];
    ghost var original := Strings(envp);
    var count := CountEntries(envp);
    var missing := CountMissing(envp, count, needed);
    if missing == 0 {
      return envp, [];
    }
    merged := heap.NewArray(count + missing + 1, 0 < grants);
    if merged == null {
      return;
    }
    for i := 0 to count
      invariant merged[..i] == original[..i] && heap.live == old(heap.live) + {merged}
      invariant forall k | i <= k < merged.Length :: merged[k] == null
    {
      merged[i] := envp[i];
    }
    var ok;
    ok, added := AppendMissing(envp, count, needed, merged, heap, grants);
    if !ok {
      return null, [];
    }
    MergedIsInjected(merged, original, added, Wanted(envp, needed));
  }

  lemma ObjectsRest(strings: seq<CString>, k: nat)
    requires k < |strings| && NoDuplicates(strings)
    ensures Objects(strings[k..]) - {strings[k]} == Objects(strings[k + 1..])
    ensures strings[k] as object in Objects(strings[k..])
  {
    var rest, tail := strings[k..], strings[k + 1..];
    assert rest[0] == strings[k];
    forall o | o in Objects(tail)
      ensures o in Objects(rest) && o != strings[k]
    {
      var i :| 0 <= i < |tail| && tail[i] == o;
      assert rest[i + 1] == o;
    }
    forall o | o in Objects(rest) && o != strings[k]
      ensures o in Objects(tail)
    {
      var i :| 0 <= i < |rest| && rest[i] == o;
      assert tail[i - 1] == o;
    }
  }

  /** The cleanup after a failed allocation: every string added so far, then the array. */
  method ReleaseAll(merged: array<CString?>, from: nat, to: nat, heap: Heap, ghost added: seq<CString>)
    requires from <= to <= merged.Length && |added| == to - from && NoDuplicates(added)
    requires forall k | 0 <= k < |added| :: merged[from + k] == added[k]
    requires merged in heap.live && Objects(added) <= heap.live && (merged as object) !in Objects(added)
    modifies heap
    ensures heap.live == old(heap.live) - {merged} - Objects(added)
  {
    assert added[..] == added;
    for k := from to to
      invariant heap.live == old(heap.live) - (Objects(added) - Objects(added[k - from..]))
    {
      ObjectsRest(added, k - from);
      assert merged[k] == added[k - from];
      heap.Free(merged[k]);
    }
    assert Objects(added[to - from..]) == {};
    heap.Free(merged);
  }

  // ---- Freeing ----------------------------------------------------------------------

  /** `linbox_free_injected_env` releases the array and exactly the strings added to it. */
  method FreeInjectedEnv(envp: array?<CString?>, original: array?<CString?>, heap: Heap, ghost added: seq<CString>)
    requires Terminated(original)
    requires envp != null && envp != original ==>
               && Merged(envp, Strings(original), added) && NoDuplicates(added)
               && envp in heap.live && Objects(added) <= heap.live && (envp as object) !in Objects(added)
    modifies heap
    ensures heap.live == if envp == null || envp == original then old(heap.live)
                         else old(heap.live) - {envp} - Objects(added)
  {
    if envp == null || envp == original {
      return;
    }
    var count := CountEntries(original);
    ghost var n := count;
    assert added[..] == added;
    forall p | n <= p < n + |added|
      ensures envp[p] != null
    {
      assert envp[n + (p - n)] == added[p - n];
    }
    while envp[count] != null
      invariant n <= count <= n + |added|
      invariant heap.live == old(heap.live) - (Objects(added) - Objects(added[count - n..]))
      decreases n + |added| - count
    {
      ObjectsRest(added, count - n);
      assert envp[n + (count - n)] == added[count - n];
      heap.Free(envp[count]);
      count := count + 1;
    }
    assert Objects(added[count - n..]) == {};
    heap.Free(envp);
  }

  /** A NULL environment needs nothing exactly when every runtime variable is unset or empty; then
      FailedExec takes the NULL result for a failed allocation. */
  lemma NullNeedsNothingExactly(needed: seq<Binding>)
    ensures Wanted(null, needed) == []
            <==> forall i | 0 <= i < |needed| :: needed[i].value == None || needed[i].value == Some("")
  {
    NothingMissing([], needed);
  }

  /** The path of `execve` and its relatives on which the system call fails or an allocation does:
      whatever was allocated for the call is released by it, and nothing else is. */
  method FailedExec(envp: array?<CString?>, needed: seq<Binding>, heap: Heap, grants: nat) returns (outOfMemory: bool)
    requires Terminated(envp)
    modifies heap
    ensures heap.live == old(heap.live)
    ensures outOfMemory <==> if Wanted(envp, needed) == [] then envp == null else grants < |Wanted(envp, needed)| + 1
  {
    ghost var added: seq<CString>;
    var merged;
    merged, added := InjectRuntimeEnv(envp, needed, heap, grants);
    if merged == null {
      return true;
    }
    FreeInjectedEnv(merged, envp, heap, added);
    return false;
  }
}
