/** kernel/module.c and the symbol handling of kernel/elf.c: loading modules against each other's
    symbols, and the use counts that keep a module from being removed too early. */
module Modules {

  import opened DList

  /** struct ksyms of an exported symbol. */
  class Ksym {
    const name: string
    var used: int

    constructor (name: string)
      ensures this.name == name && used == 0
    {
      this.name, used := name, 0;
    }
  }

  /** A loaded module: its symbol table, and the symbol of each entry of its dependency table. */
  datatype Module = Module(symbols: seq<Ksym>, deps: seq<Ksym>)

  /** All the dependency entries of loaded modules. */
  ghost function Refs(loaded: seq<Module>): multiset<Ksym> {
    if loaded == [] then multiset{} else multiset(loaded[0].deps) + Refs(loaded[1..])
  }

  lemma {:induction false} RefsAppend(a: seq<Module>, b: seq<Module>)
    ensures Refs(a + b) == Refs(a) + Refs(b)
  {
    if a == [] {
      assert a + b == b;
    } else {
      assert (a + b)[1..] == a[1..] + b;
      RefsAppend(a[1..], b);
    }
  }

  lemma RefsWithout(loaded: seq<Module>, k: nat)
    requires k < |loaded|
    ensures Refs(loaded) == Refs(Rest(loaded, k)) + multiset(loaded[k].deps)
  {
    assert loaded == loaded[..k] + ([loaded[k]] + loaded[k + 1..]);
    RefsAppend(loaded[..k], [loaded[k]] + loaded[k + 1..]);
    RefsAppend(loaded[..k], loaded[k + 1..]);
    assert ([loaded[k]] + loaded[k + 1..])[1..] == loaded[k + 1..];
  }

  /** A symbol has an entry exactly when some loaded module depends on it. */
  lemma {:induction false} RefsMember(loaded: seq<Module>, x: Ksym)
    ensures x in Refs(loaded) <==> exists k :: 0 <= k < |loaded| && x in loaded[k].deps
  {
    if loaded != [] {
      RefsMember(loaded[1..], x);
      assert x in Refs(loaded) <==> x in loaded[0].deps || x in Refs(loaded[1..]);
      if k :| 0 <= k < |loaded| && x in loaded[k].deps {
        if k > 0 { assert loaded[1..][k - 1] == loaded[k]; }
      }
      if k :| 0 <= k < |loaded[1..]| && x in loaded[1..][k].deps { assert loaded[k + 1] == loaded[1..][k]; }
    }
  }

  function Minus(s: seq<Ksym>, xs: seq<Ksym>): seq<Ksym>
    decreases |xs|
  {
    if xs == [] then s else Minus(Without(s, xs[0]), xs[1..])
  }

  lemma {:induction false} MinusMembers(s: seq<Ksym>, xs: seq<Ksym>)
    requires Distinct(s)
    ensures Distinct(Minus(s, xs)) && Elems(Minus(s, xs)) == Elems(s) - Elems(xs)
    decreases |xs|
  {
    if xs != [] {
      WithoutMembers(s, xs[0]);
      MinusMembers(Without(s, xs[0]), xs[1..]);
      assert Elems(xs) == {xs[0]} + Elems(xs[1..]);
    }
  }

  lemma InMinus(s: seq<Ksym>, xs: seq<Ksym>, y: Ksym)
    requires Distinct(s)
    ensures y in Minus(s, xs) <==> y in s && y !in xs
  {
    MinusMembers(s, xs);
    assert y in Elems(Minus(s, xs)) <==> y in Elems(s) - Elems(xs);
  }

  /** Loaded modules export and use symbols of the table; a module uses no symbol of its own or of
      one loaded later; no two modules export the same symbol. */
  ghost predicate LinkedIn(table: seq<Ksym>, loaded: seq<Module>) {
    && Distinct(table)
    && (forall i :: 0 <= i < |loaded| ==> Within(loaded[i].symbols, table) && Within(loaded[i].deps, table))
    && (forall i, j :: 0 <= i <= j < |loaded| ==> Apart(loaded[i].deps, loaded[j].symbols))
    && (forall i, j :: 0 <= i < j < |loaded| ==> Apart(loaded[i].symbols, loaded[j].symbols))
  }

  /** The symbol a name resolves to, none if no symbol has the name. */
  function Newest(table: seq<Ksym>, name: string): Ksym? {
    if table == [] then null else if table[0].name == name then table[0] else Newest(table[1..], name)
  }

  /** A name that some symbol has resolves, and to the first symbol of that name. */
  lemma {:induction false} NewestFirst(table: seq<Ksym>, name: string, k: nat)
    requires k < |table| && table[k].name == name
    ensures Newest(table, name) != null
    ensures (forall j :: 0 <= j < k ==> table[j].name != name) ==> Newest(table, name) == table[k]
    decreases |table|
  {
    if table[0].name != name { NewestFirst(table[1..], name, k - 1); }
  }

  /** The table after add_sym of each symbol, the last one first. */
  function Added(table: seq<Ksym>, symbols: seq<Ksym>): seq<Ksym> {
    if symbols == [] then table else [symbols[|symbols| - 1]] + Added(table, symbols[..|symbols| - 1])
  }

  /** After the symbols have been added, a name resolves to the last of them that has it, and a name that
      none of them has resolves as before. */
  lemma {:induction false} NewestAdded(table: seq<Ksym>, symbols: seq<Ksym>, name: string)
    ensures forall k ::
      && 0 <= k < |symbols| && symbols[k].name == name
      && (forall j :: k < j < |symbols| ==> symbols[j].name != name)
      ==> Newest(Added(table, symbols), name) == symbols[k]
    ensures (forall k :: 0 <= k < |symbols| ==> symbols[k].name != name) ==>
      Newest(Added(table, symbols), name) == Newest(table, name)
    decreases |symbols|
  {
    if symbols != [] {
      var n := |symbols| - 1;
      NewestAdded(table, symbols[..n], name);
      assert Added(table, symbols)[1..] == Added(table, symbols[..n]);
    }
  }

  predicate Resolvable(table: seq<Ksym>, names: seq<string>) {
    forall j :: 0 <= j < |names| ==> Newest(table, names[j]) != null
  }

  /** What the names resolve to. */
  function Resolution(table: seq<Ksym>, names: seq<string>): seq<Ksym>
    requires Resolvable(table, names)
  {
    seq(|names|, j requires 0 <= j < |names| => Newest(table, names[j]))
  }

  /** The entries that the dependency loop makes: up to the first name without a symbol, or until
      memory for `entries` entries is used up. */
  function Marks(table: seq<Ksym>, names: seq<string>, entries: nat): (deps: seq<Ksym>)
    ensures |deps| <= |names|
    decreases |names|
  {
    if names == [] || entries == 0 || Newest(table, names[0]) == null then []
    else [Newest(table, names[0])] + Marks(table, names[1..], entries - 1)
  }

  /** It makes them all exactly when every name resolves and the memory lasts, and then they are what
      the names resolve to. */
  lemma {:induction false} AllMarked(table: seq<Ksym>, names: seq<string>, entries: nat)
    ensures |Marks(table, names, entries)| == |names| <==> |names| <= entries && Resolvable(table, names)
    ensures |names| <= entries && Resolvable(table, names) ==> Marks(table, names, entries) == Resolution(table, names)
    ensures Resolvable(table, names) <==> forall j :: 0 <= j < |names| ==> Newest(table, names[j]) != null
    decreases |names|
  {
    if names != [] {
      assert Resolvable(table, names) <==> Newest(table, names[0]) != null && Resolvable(table, names[1..]) by {
        assert forall j :: 0 < j < |names| ==> names[j] == names[1..][j - 1];
      }
      if entries > 0 { AllMarked(table, names[1..], entries - 1); }
    }
  }

  /** The entries made are what the names resolve to, one by one. */
  lemma {:induction false} MarksAre(table: seq<Ksym>, names: seq<string>, entries: nat)
    ensures var deps := Marks(table, names, entries);
      && |deps| <= |names| && |deps| <= entries
      && (forall i :: 0 <= i < |deps| ==> deps[i] == Newest(table, names[i]))
      && (|deps| < |names| && |deps| < entries ==> Newest(table, names[|deps|]) == null)
    decreases |names|
  {
    if names != [] && entries > 0 { MarksAre(table, names[1..], entries - 1); }
  }

  /** One more round of the loop. */
  lemma {:induction false} MarksStep(table: seq<Ksym>, names: seq<string>, entries: nat, deps: seq<Ksym>, i: nat)
    requires i < |names| && i < entries && Newest(table, names[i]) != null
    requires deps + Marks(table, names[i..], entries - i) == Marks(table, names, entries)
    ensures deps + [Newest(table, names[i])] + Marks(table, names[i + 1..], entries - (i + 1))
      == Marks(table, names, entries)
  {
    assert names[i..][1..] == names[i + 1..];
  }

  lemma {:induction false} MinusLast(s: seq<Ksym>, xs: seq<Ksym>, x: Ksym)
    ensures Minus(s, xs + [x]) == Without(Minus(s, xs), x)
    decreases |xs|
  {
    if xs == [] {
      assert xs + [x] == [x];
      assert Minus(Without(s, x), [x][1..]) == Without(s, x);
    } else {
      MinusLast(Without(s, xs[0]), xs[1..], x);
      assert (xs + [x])[1..] == xs[1..] + [x];
    }
  }

  lemma {:induction false} MinusKeeps(y: Ksym, s: seq<Ksym>, xs: seq<Ksym>)
    requires y !in xs
    ensures Minus([y] + s, xs) == [y] + Minus(s, xs)
    decreases |xs|
  {
    if xs != [] {
      assert Without([y] + s, xs[0]) == [y] + Without(s, xs[0]);
      MinusKeeps(y, Without(s, xs[0]), xs[1..]);
    }
  }

  lemma {:induction false} AddedMember(table: seq<Ksym>, symbols: seq<Ksym>, y: Ksym)
    requires y in symbols
    ensures y in Added(table, symbols)
    decreases |symbols|
  {
    var n := |symbols| - 1;
    if y != symbols[n] { AddedMember(table, symbols[..n], y); }
  }

  lemma {:induction false} AddedKeeps(table: seq<Ksym>, symbols: seq<Ksym>, y: Ksym)
    requires y in table
    ensures y in Added(table, symbols)
    decreases |symbols|
  {
    if symbols != [] { AddedKeeps(table, symbols[..|symbols| - 1], y); }
  }

  /** Releasing the symbols just added gives the table back. */
  lemma {:induction false} AddedThenGone(table: seq<Ksym>, symbols: seq<Ksym>)
    requires Distinct(Added(table, symbols))
    ensures Minus(Added(table, symbols), symbols) == table
    decreases |symbols|
  {
    if symbols != [] {
      var n := |symbols| - 1;
      var rest, init, x := Added(table, symbols[..n]), symbols[..n], symbols[n];
      assert Added(table, symbols) == [x] + rest && symbols == init + [x];
      var all := [x] + rest;
      assert all[1..] == rest && all[0] == x && forall i :: 0 < i < |all| ==> all[i] != x;
      if x in init { AddedMember(table, init, x); }
      AddedThenGone(table, init);
      MinusKeeps(x, rest, init);
      MinusLast([x] + rest, init, x);
    }
  }

  ghost predicate Within(s: seq<Ksym>, t: seq<Ksym>) {
    forall k :: 0 <= k < |s| ==> s[k] in t
  }

  ghost predicate Apart(s: seq<Ksym>, t: seq<Ksym>) {
    forall k :: 0 <= k < |s| ==> s[k] !in t
  }

  function Rest(loaded: seq<Module>, k: nat): seq<Module>
    requires k < |loaded|
  {
    loaded[..k] + loaded[k + 1..]
  }

  /** A module none of whose symbols is referred to can go. */
  lemma LinkedWithout(table: seq<Ksym>, loaded: seq<Module>, k: nat)
    requires LinkedIn(table, loaded) && k < |loaded|
    requires forall j :: 0 <= j < |loaded[k].symbols| ==> Refs(loaded)[loaded[k].symbols[j]] == 0
    ensures LinkedIn(Minus(table, loaded[k].symbols), Rest(loaded, k))
  {
    var gone, rest := loaded[k].symbols, Rest(loaded, k);
    var table' := Minus(table, gone);
    MinusMembers(table, gone);
    forall i | 0 <= i < |rest| ensures Within(rest[i].symbols, table') && Within(rest[i].deps, table') {
      var o := if i < k then i else i + 1;
      assert rest[i] == loaded[o];
      forall j | 0 <= j < |rest[i].deps| ensures rest[i].deps[j] in table' {
        var x := loaded[o].deps[j];
        RefsMember(loaded, x);
        InMinus(table, gone, x);
      }
      forall j | 0 <= j < |rest[i].symbols| ensures rest[i].symbols[j] in table' {
        var x := loaded[o].symbols[j];
        InMinus(table, gone, x);
        OneExporter(table, loaded, o, k, x);
      }
    }
    forall i, j | 0 <= i <= j < |rest|
      ensures Apart(rest[i].deps, rest[j].symbols) && (i < j ==> Apart(rest[i].symbols, rest[j].symbols)) {
      var a, b := if i < k then i else i + 1, if j < k then j else j + 1;
      assert rest[i] == loaded[a] && rest[j] == loaded[b] && a <= b;
    }
  }

  lemma OneExporter(table: seq<Ksym>, loaded: seq<Module>, i: nat, k: nat, x: Ksym)
    requires LinkedIn(table, loaded) && i < |loaded| && k < |loaded| && i != k && x in loaded[i].symbols
    ensures x !in loaded[k].symbols
  {
    if i < k {
      assert Apart(loaded[i].symbols, loaded[k].symbols);
    } else {
      assert Apart(loaded[k].symbols, loaded[i].symbols);
    }
  }

  /** Nothing but these two in the table. */
  ghost predicate Covered(table: seq<Ksym>, symbols: seq<Ksym>, was: seq<Ksym>) {
    forall j :: 0 <= j < |table| ==> table[j] in symbols || table[j] in was
  }

  /** The use counts are these. */
  ghost predicate Marked(table: seq<Ksym>, refs: multiset<Ksym>)
    reads table`used
  {
    forall x :: x in table ==> x.used == refs[x]
  }

  lemma NewMarked(was: seq<Ksym>, table: seq<Ksym>, symbols: seq<Ksym>, refs: multiset<Ksym>)
    requires Marked(was, refs) && Covered(table, symbols, was)
    requires forall j :: 0 <= j < |symbols| ==> symbols[j].used == 0 && symbols[j] !in refs
    ensures Marked(table, refs)
  {
  }

  lemma FewerMarked(was: seq<Ksym>, table: seq<Ksym>, refs: multiset<Ksym>)
    requires Marked(was, refs) && Within(table, was)
    ensures Marked(table, refs)
  {
  }

  /** Only symbols of the table are counted without an entry. */
  ghost predicate StaleIn(table: seq<Ksym>, stale: multiset<Ksym>) {
    forall x :: x in stale ==> x in table
  }

  /** Some loaded module exports the symbol. */
  ghost predicate Exported(loaded: seq<Module>, x: Ksym) {
    exists k :: 0 <= k < |loaded| && x in loaded[k].symbols
  }

  /** Every symbol of the table is the kernel's, left over from a load that failed, or a loaded
      module's, and the kernel's and the left-over ones are always there. */
  ghost predicate SourcedIn(table: seq<Ksym>, loaded: seq<Module>, kernel: set<Ksym>, leftover: set<Ksym>) {
    && kernel !! leftover
    && (forall x :: x in kernel + leftover ==> x in table && !Exported(loaded, x))
    && forall x :: x in table ==> x in kernel || x in leftover || Exported(loaded, x)
  }

  lemma SourcedWithout(table: seq<Ksym>, loaded: seq<Module>, k: nat, kernel: set<Ksym>, leftover: set<Ksym>)
    requires SourcedIn(table, loaded, kernel, leftover) && Distinct(table) && k < |loaded|
    ensures SourcedIn(Minus(table, loaded[k].symbols), Rest(loaded, k), kernel, leftover)
  {
    var table', rest := Minus(table, loaded[k].symbols), Rest(loaded, k);
    forall x | x in kernel + leftover ensures x in table' && !Exported(rest, x) {
      InMinus(table, loaded[k].symbols, x);
      RestExports(loaded, k, x);
    }
    forall x | x in table' ensures x in kernel || x in leftover || Exported(rest, x) {
      InMinus(table, loaded[k].symbols, x);
      RestExports(loaded, k, x);
    }
  }

  lemma RestExports(loaded: seq<Module>, k: nat, x: Ksym)
    requires k < |loaded|
    ensures Exported(Rest(loaded, k), x) ==> Exported(loaded, x)
    ensures Exported(loaded, x) ==> x in loaded[k].symbols || Exported(Rest(loaded, k), x)
    ensures x in loaded[k].symbols ==> Exported(loaded, x)
  {
    var rest := Rest(loaded, k);
    if Exported(rest, x) {
      var i :| 0 <= i < |rest| && x in rest[i].symbols;
      assert rest[i] == loaded[if i < k then i else i + 1];
    }
    if Exported(loaded, x) && x !in loaded[k].symbols {
      var i :| 0 <= i < |loaded| && x in loaded[i].symbols;
      assert rest[if i < k then i else i - 1] == loaded[i];
    }
  }

  lemma SourcedWith(was: seq<Ksym>, table: seq<Ksym>, loaded: seq<Module>, m: Module, kernel: set<Ksym>,
      leftover: set<Ksym>)
    requires SourcedIn(was, loaded, kernel, leftover) && Covered(table, m.symbols, was)
    requires Within(was, table) && Within(m.symbols, table) && Apart(m.symbols, was)
    ensures SourcedIn(table, loaded + [m], kernel, leftover)
    ensures LinkedIn(was, loaded) ==> SourcedIn(table, loaded, kernel, leftover + Elems(m.symbols))
  {
    var all := loaded + [m];
    forall x ensures Exported(all, x) <==> Exported(loaded, x) || x in m.symbols {
      if Exported(loaded, x) {
        var k :| 0 <= k < |loaded| && x in loaded[k].symbols;
        assert all[k] == loaded[k];
      }
      if x in m.symbols { assert all[|loaded|] == m; }
    }
    assert forall x :: x in table ==> x in m.symbols || x in was;
    assert forall x :: x in m.symbols ==> x !in was && x in table;
    assert forall x :: x in was ==> x in table;
    if LinkedIn(was, loaded) {
      assert forall k :: 0 <= k < |loaded| ==> Within(loaded[k].symbols, was);
    }
  }

  class Loader {
    var table: seq<Ksym>         // the symbols that can be looked up, newest first
    var loaded: seq<Module>      // in the order of loading
    ghost const kernel: set<Ksym>      // the kernel's own symbols
    ghost var leftover: set<Ksym>      // symbols of modules whose load failed
    ghost var stale: multiset<Ksym>    // the uses counted by loads that failed

    ghost predicate Linked()
      reads this
    {
      LinkedIn(table, loaded)
    }

    /** The use count of a symbol is the number of entries that point at it, and of the uses that
        loads which failed have counted. */
    ghost predicate Counted()
      reads this, table
    {
      Marked(table, Refs(loaded) + stale) && StaleIn(table, stale)
    }

    ghost predicate Sourced()
      reads this
    {
      SourcedIn(table, loaded, kernel, leftover)
    }

    ghost predicate Valid()
      reads this, table
    {
      Linked() && Counted() && Sourced()
    }

    /** With the kernel's own symbols. */
    constructor (kernel: seq<Ksym>)
      requires Distinct(kernel) && forall k :: 0 <= k < |kernel| ==> kernel[k].used == 0
      ensures Valid() && table == kernel && loaded == [] && stale == multiset{} && leftover == {}
      ensures this.kernel == Elems(kernel)
    {
      table, loaded, leftover, stale, this.kernel := kernel, [], {}, multiset{}, Elems(kernel);
    }

    /** mod_in_use. */
    method ModInUse(m: Module) returns (inUse: bool)
      ensures inUse <==> exists k :: 0 <= k < |m.symbols| && m.symbols[k].used != 0
    {
      for i := 0 to |m.symbols|
        invariant forall k :: 0 <= k < i ==> m.symbols[k].used == 0
      {
        if m.symbols[i].used != 0 {
          return true;
        }
      }
      inUse := false;
    }

    /** The first loop of release_module: one use less for each dependency entry. */
    method DropDeps(deps: seq<Ksym>)
      requires forall k :: 0 <= k < |deps| ==> deps[k] in table
      requires forall x :: x in table ==> x.used >= multiset(deps)[x]
      modifies table`used
      ensures forall x :: x in table ==> x.used == old(x.used) - multiset(deps)[x]
    {
      var i := 0;
      while i < |deps|
        invariant 0 <= i <= |deps|
        invariant forall x :: x in table ==> x.used == old(x.used) - multiset(deps[..i])[x]
      {
        var d := deps[i];
        assert deps[..i + 1] == deps[..i] + [d];
        assert deps == deps[..i + 1] + deps[i + 1..];
        if d.used != 0 {
          d.used := d.used - 1;
        }
        i := i + 1;
      }
      assert deps[..|deps|] == deps;
    }

    /** release_module of the module at `k`: its dependency entries and its symbols go. */
    method ReleaseModule(k: nat)
      requires Valid() && k < |loaded| && Unneeded(k)
      modifies this`table, this`loaded, table`used
      ensures Valid() && loaded == old(Rest(loaded, k)) && table == Minus(old(table), old(loaded[k].symbols))
      ensures forall x :: x in old(table) ==> x.used == old(x.used) - multiset(old(loaded)[k].deps)[x]
    {
      Released(k);
      hide LinkedIn, SourcedIn, StaleIn, Refs, Minus, Distinct, Unneeded, Marked, Within;
      var m, rest := loaded[k], Rest(loaded, k);
      ghost var refs := Refs(rest) + stale;
      DropCounts(m.deps, refs);
      ghost var was := table;
      table, loaded := Minus(table, m.symbols), rest;
      Closed(was, refs);
    }

    lemma Closed(was: seq<Ksym>, refs: multiset<Ksym>)
      requires Marked(was, refs) && Within(table, was) && refs == Refs(loaded) + stale
      requires Linked() && Sourced() && StaleIn(table, stale)
      ensures Valid()
    {
      FewerMarked(was, table, refs);
    }

    /** The counts without the module's entries. */
    method DropCounts(deps: seq<Ksym>, ghost refs: multiset<Ksym>)
      requires Marked(table, refs + multiset(deps)) && Within(deps, table)
      modifies table`used
      ensures Marked(table, refs)
      ensures forall x :: x in table ==> x.used == old(x.used) - multiset(deps)[x]
    {
      DropDeps(deps);
    }

    /** What is left without the module. */
    lemma Released(k: nat)
      requires Valid() && k < |loaded| && Unneeded(k)
      ensures var table', rest := Minus(table, loaded[k].symbols), Rest(loaded, k);
        && LinkedIn(table', rest) && SourcedIn(table', rest, kernel, leftover) && StaleIn(table', stale)
        && Within(table', table) && Within(loaded[k].deps, table)
        && Marked(table, Refs(rest) + stale + multiset(loaded[k].deps))
    {
      RefsWithout(loaded, k);
      LinkedWithout(table, loaded, k);
      SourcedWithout(table, loaded, k, kernel, leftover);
      StaleWithout(k);
      assert Within(loaded[k].deps, table);
      hide LinkedIn, SourcedIn, Minus, Refs;
      var table' := Minus(table, loaded[k].symbols);
      forall i | 0 <= i < |table'| ensures table'[i] in table { assert table'[i] in Elems(table'); }
      assert Refs(loaded) + stale == Refs(Rest(loaded, k)) + stale + multiset(loaded[k].deps);
    }

    /** No entry of a loaded module and no use counted in vain points at a symbol of the module. */
    ghost predicate Unneeded(k: nat)
      requires k < |loaded|
      reads this
    {
      forall j :: 0 <= j < |loaded[k].symbols| ==> loaded[k].symbols[j] !in Refs(loaded) + stale
    }

    lemma StaleWithout(k: nat)
      requires Linked() && StaleIn(table, stale) && k < |loaded| && Unneeded(k)
      ensures StaleIn(Minus(table, loaded[k].symbols), stale)
      ensures Elems(Minus(table, loaded[k].symbols)) <= Elems(table)
    {
      MinusMembers(table, loaded[k].symbols);
      forall x | x in stale ensures x in Minus(table, loaded[k].symbols) { InMinus(table, loaded[k].symbols, x); }
    }

    /** The module can be removed if and only if neither a loaded module's entry nor a load that
        failed has counted a use of one of its symbols. */
    lemma Removable(k: nat)
      requires Valid() && k < |loaded|
      ensures (forall j :: 0 <= j < |loaded[k].symbols| ==> loaded[k].symbols[j].used == 0) <==> Unneeded(k)
    {
      assert Within(loaded[k].symbols, table);
    }

    /** deinstall_module: refused exactly when a symbol of the module is in use. */
    method DeinstallModule(k: nat) returns (err: int)
      requires Valid() && k < |loaded|
      modifies this`table, this`loaded, table`used
      ensures Valid()
      ensures err == 0 <==> old(Unneeded(k))
      ensures if err == 0 then loaded == old(Rest(loaded, k)) && table == Minus(old(table), old(loaded[k].symbols))
              else err == -1 && loaded == old(loaded) && table == old(table)
      ensures forall x :: x in old(table) ==>
        x.used == old(x.used) - if err == 0 then multiset(old(loaded)[k].deps)[x] else 0
    {
      Removable(k);
      var inUse := ModInUse(loaded[k]);
      if inUse {
        return -1;
      }
      ReleaseModule(k);
      err := 0;
    }

    /** lookup_symbol: the newest symbol of the name. */
    method LookupSymbol(name: string) returns (sym: Ksym?)
      ensures sym == Newest(table, name) && (sym != null ==> sym in table && sym.name == name)
    {
      for i := 0 to |table|
        invariant Newest(table, name) == Newest(table[i..], name)
      {
        if table[i].name == name {
          return table[i];
        }
        assert table[i..][1..] == table[i + 1..];
      }
      sym := null;
    }

    /** The dependency loop of load_module: every undefined name gets an entry for the symbol it
        resolves to, which is marked as used once more. It stops at a name it cannot resolve, or
        when memory for `entries` entries is used up, and then leaves the marks made so far. */
    method Resolve(names: seq<string>, entries: nat) returns (ok: bool, deps: seq<Ksym>)
      modifies table`used
      ensures deps == Marks(table, names, entries) && Within(deps, table) && (ok <==> |deps| == |names|)
      ensures forall x :: x in table ==> x.used == old(x.used) + multiset(deps)[x]
    {
      deps := [];
      var i := 0;
      while i < |names|
        invariant 0 <= i <= |names| && |deps| == i <= entries && Within(deps, table)
        invariant deps + Marks(table, names[i..], entries - i) == Marks(table, names, entries)
        invariant forall x :: x in table ==> x.used == old(x.used) + multiset(deps)[x]
      {
        var ptr := LookupSymbol(names[i]);
        if ptr == null {
          return false, deps;
        }
        if i == entries {
          return false, deps;
        }
        MarksStep(table, names, entries, deps, i);
        deps := deps + [ptr];
        ptr.used := ptr.used + 1;
        i := i + 1;
      }
      ok := true;
    }

    /** add_sym for each exported name. */
    method Export(names: seq<string>) returns (symbols: seq<Ksym>)
      requires Distinct(table)
      modifies this`table
      ensures |symbols| == |names|
      ensures forall j :: 0 <= j < |names| ==> fresh(symbols[j]) && symbols[j].name == names[j] && symbols[j].used == 0
      ensures table == Added(old(table), symbols) && Apart(symbols, old(table)) && Covered(table, symbols, old(table))
      ensures Distinct(table) && Within(symbols, table) && Within(old(table), table)
    {
      symbols := [];
      for i := 0 to |names|
        invariant |symbols| == i
        invariant forall j :: 0 <= j < i ==> fresh(symbols[j]) && symbols[j].name == names[j] && symbols[j].used == 0
        invariant table == Added(old(table), symbols)
        invariant Distinct(table) && Within(symbols, table) && Within(old(table), table)
        invariant Apart(symbols, old(table)) && Covered(table, symbols, old(table))
      {
        var sym := new Ksym(names[i]);
        assert sym !in table;
        table := [sym] + table;
        symbols := symbols + [sym];
        assert symbols[..i] + [sym] == symbols;
      }
    }

    /** load_module: resolves the undefined names, exports the module's own, and fails, undoing
        nothing, if a name cannot be resolved, memory for `info` runs out or there is no init_module.
        The uses counted by then stay, and so do the symbols exported by then. */
    method LoadModule(undefined: seq<string>, exports: seq<string>, memory: bool, entries: nat, info: bool,
        hasInit: bool) returns (err: int, ghost symbols: seq<Ksym>)
      requires Valid()
      modifies this, table`used
      ensures Valid() && err == if memory && |undefined| <= entries && info && hasInit
          && forall j :: 0 <= j < |undefined| ==> Newest(old(table), undefined[j]) != null then 0 else -1
      ensures forall j :: 0 <= j < |table| ==> table[j] in old(table) || fresh(table[j])
      ensures forall x :: x in old(table) ==>
        x.used == old(x.used) + if memory then multiset(Marks(old(table), undefined, entries))[x] else 0
      ensures Made(symbols, old(table), if Loads(old(table), undefined, memory, entries, info) then exports else [])
      ensures forall j :: 0 <= j < |symbols| ==> fresh(symbols[j]) && symbols[j].used == 0
      ensures if err == 0
        then loaded == old(loaded) + [Module(symbols, Resolution(old(table), undefined))]
        else loaded == old(loaded)
      ensures leftover == if err == 0 then old(leftover) else old(leftover) + Elems(symbols)
      ensures stale == if err == 0 || !memory then old(stale)
        else old(stale) + multiset(Marks(old(table), undefined, entries))
    {
      symbols := [];
      AllMarked(table, undefined, entries);
      hide LinkedIn, SourcedIn, StaleIn, Refs, Marked, Marks, Resolvable, Newest, Within;
      if !memory {
        return -1, [];
      }
      var ok, deps := CountUses(undefined, entries);
      if !ok || !info {
        MoreStale(deps);
        stale := stale + multiset(deps);
        return -1, [];
      }
      symbols := Link(deps, exports, hasInit);
      err := if hasInit then 0 else -1;
    }

    /** The dependency loop, and the counts after it. */
    method CountUses(undefined: seq<string>, entries: nat) returns (ok: bool, deps: seq<Ksym>)
      requires Marked(table, Refs(loaded) + stale)
      modifies table`used
      ensures deps == Marks(table, undefined, entries) && Within(deps, table) && (ok <==> |deps| == |undefined|)
      ensures Marked(table, Refs(loaded) + stale + multiset(deps))
      ensures forall x :: x in table ==> x.used == old(x.used) + multiset(deps)[x]
    {
      hide Refs, Marks;
      ok, deps := Resolve(undefined, entries);
    }

    /** The load comes to the exports. */
    static ghost predicate Loads(table: seq<Ksym>, undefined: seq<string>, memory: bool, entries: nat, info: bool) {
      memory && |undefined| <= entries && Resolvable(table, undefined) && info
    }

    /** The table is the old one with these symbols, of these names, before it. */
    ghost predicate Made(symbols: seq<Ksym>, was: seq<Ksym>, names: seq<string>)
      reads this`table
    {
      && table == Added(was, symbols) && Apart(symbols, was)
      && |symbols| == |names| && forall j :: 0 <= j < |names| ==> symbols[j].name == names[j]
    }

    lemma MoreStale(deps: seq<Ksym>)
      requires Within(deps, table) && StaleIn(table, stale)
      ensures StaleIn(table, stale + multiset(deps))
      ensures Refs(loaded) + stale + multiset(deps) == Refs(loaded) + (stale + multiset(deps))
    {
      forall x | x in stale + multiset(deps) ensures x in table {
        if x !in stale { assert x in deps; }
      }
    }

    /** The second half of load_module: the module's own symbols, and its tables if it has an init_module. */
    method Link(deps: seq<Ksym>, exports: seq<string>, hasInit: bool) returns (symbols: seq<Ksym>)
      requires Linked() && Sourced() && StaleIn(table, stale) && Within(deps, table)
      requires Marked(table, Refs(loaded) + stale + multiset(deps))
      modifies this
      ensures Valid() && Made(symbols, old(table), exports)
      ensures forall j :: 0 <= j < |table| ==> table[j] in old(table) || fresh(table[j])
      ensures forall j :: 0 <= j < |symbols| ==> fresh(symbols[j]) && symbols[j].used == 0
      ensures loaded == if hasInit then old(loaded) + [Module(symbols, deps)] else old(loaded)
      ensures leftover == if hasInit then old(leftover) else old(leftover) + Elems(symbols)
      ensures stale == if hasInit then old(stale) else old(stale) + multiset(deps)
    {
      hide Refs, Marked, Distinct, Added, LinkedIn, Within, Apart, Covered, SourcedIn, StaleIn;
      ghost var was := table;
      symbols := AddSyms(exports, deps);
      SourcedWith(was, table, loaded, Module(symbols, deps), kernel, leftover);
      StaleGrown(was, symbols);
      FromBoth(table, symbols, was);
      if hasInit {
        Append(deps, symbols, was);
        Regrouped(Refs(loaded), stale, multiset(deps));
        loaded := loaded + [Module(symbols, deps)];
      } else {
        StillLinked(symbols, was);
        WithinGrown(deps, was);
        MoreStale(deps);
        leftover := leftover + Elems(symbols);
        stale := stale + multiset(deps);
      }
    }

    lemma FromBoth(table: seq<Ksym>, symbols: seq<Ksym>, was: seq<Ksym>)
      requires Covered(table, symbols, was)
      ensures forall j :: 0 <= j < |table| ==> table[j] in symbols || table[j] in was
    {
    }

    lemma Regrouped(a: multiset<Ksym>, b: multiset<Ksym>, c: multiset<Ksym>)
      ensures a + b + c == a + c + b
    {
    }

    lemma StaleGrown(was: seq<Ksym>, symbols: seq<Ksym>)
      requires StaleIn(was, stale) && Within(was, table)
      ensures StaleIn(table, stale)
    {
    }

    lemma WithinGrown(deps: seq<Ksym>, was: seq<Ksym>)
      requires Within(deps, was) && Within(was, table)
      ensures Within(deps, table)
    {
    }

    /** The module's own symbols: nothing refers to them yet. */
    method AddSyms(exports: seq<string>, ghost deps: seq<Ksym>) returns (symbols: seq<Ksym>)
      requires Linked() && Within(deps, table) && StaleIn(table, stale)
      requires Marked(table, Refs(loaded) + stale + multiset(deps))
      modifies this`table
      ensures Marked(table, Refs(loaded) + stale + multiset(deps)) && Made(symbols, old(table), exports)
      ensures Distinct(table) && Within(symbols, table) && Within(old(table), table)
      ensures Apart(symbols, old(table)) && Covered(table, symbols, old(table))
      ensures forall j :: 0 <= j < |symbols| ==> fresh(symbols[j]) && symbols[j].used == 0
    {
      assert Distinct(table);
      hide Refs, Marked, Distinct, Added, LinkedIn, Within, Apart, Covered, StaleIn;
      ghost var was := table;
      symbols := Export(exports);
      RefsNone(loaded, symbols, was);
      NoEntries(symbols, was, deps);
      NewMarked(was, table, symbols, Refs(loaded) + stale + multiset(deps));
    }

    lemma NoEntries(symbols: seq<Ksym>, was: seq<Ksym>, deps: seq<Ksym>)
      requires Apart(symbols, was) && Within(deps, was) && StaleIn(was, stale)
      ensures forall j :: 0 <= j < |symbols| ==> symbols[j] !in deps && symbols[j] !in stale
    {
    }

    lemma StillLinked(symbols: seq<Ksym>, was: seq<Ksym>)
      requires LinkedIn(was, loaded) && Distinct(table) && Within(was, table)
      ensures Linked()
    {
      forall i | 0 <= i < |loaded| ensures Within(loaded[i].symbols, table) && Within(loaded[i].deps, table) {
      }
    }

    /** New symbols have no entries yet. */
    lemma RefsNone(loaded: seq<Module>, symbols: seq<Ksym>, was: seq<Ksym>)
      requires LinkedIn(was, loaded) && Apart(symbols, was)
      ensures forall j :: 0 <= j < |symbols| ==> Refs(loaded)[symbols[j]] == 0
    {
      forall j | 0 <= j < |symbols| ensures Refs(loaded)[symbols[j]] == 0 {
        RefsMember(loaded, symbols[j]);
        forall k | 0 <= k < |loaded| ensures symbols[j] !in loaded[k].deps { assert Within(loaded[k].deps, was); }
      }
    }

    lemma Append(deps: seq<Ksym>, symbols: seq<Ksym>, was: seq<Ksym>)
      requires LinkedIn(was, loaded) && Distinct(table) && Within(was, table) && Within(deps, was)
      requires Within(symbols, table)
      requires Apart(symbols, was)
      ensures LinkedIn(table, loaded + [Module(symbols, deps)])
      ensures Refs(loaded + [Module(symbols, deps)]) == Refs(loaded) + multiset(deps)
    {
      var m := Module(symbols, deps);
      RefsAppend(loaded, [m]);
      assert [m][1..] == [];
      var all := loaded + [m];
      hide Refs, Distinct;
      assert forall k :: 0 <= k < |symbols| ==> symbols[k] in table;
      forall i | 0 <= i < |all| ensures Within(all[i].symbols, table) && Within(all[i].deps, table) {
        assert i < |loaded| ==> all[i] == loaded[i];
      }
      forall i, j | 0 <= i <= j < |all|
        ensures Apart(all[i].deps, all[j].symbols) && (i < j ==> Apart(all[i].symbols, all[j].symbols)) {
        assert i < |loaded| ==> all[i] == loaded[i] && Within(loaded[i].deps, was) && Within(loaded[i].symbols, was);
        assert j < |loaded| ==> all[j] == loaded[j];
        NewApart(deps, symbols, was);
        if i < |loaded| {
          NewApart(loaded[i].deps, symbols, was);
          NewApart(loaded[i].symbols, symbols, was);
        }
      }
    }

    lemma NewApart(s: seq<Ksym>, symbols: seq<Ksym>, was: seq<Ksym>)
      requires Within(s, was) && Apart(symbols, was)
      ensures Apart(s, symbols)
    {
    }

    /** Nothing depends on the module loaded last. */
    lemma LastUnreferenced(loaded: seq<Module>)
      requires LinkedIn(table, loaded) && loaded != []
      ensures var m := loaded[|loaded| - 1]; forall j :: 0 <= j < |m.symbols| ==> Refs(loaded)[m.symbols[j]] == 0
    {
      var m := loaded[|loaded| - 1];
      forall j | 0 <= j < |m.symbols| ensures Refs(loaded)[m.symbols[j]] == 0 {
        RefsMember(loaded, m.symbols[j]);
        forall k | 0 <= k < |loaded| ensures m.symbols[j] !in loaded[k].deps {
          assert Apart(loaded[k].deps, m.symbols);
        }
      }
    }

    /** install_module. A module whose init_module fails is released again, which leaves the table,
        the other modules and their use counts as they were; the result is 0 all the same. A load that
        fails leaves behind what load_module does. */
    method InstallModule(undefined: seq<string>, exports: seq<string>, memory: bool, entries: nat, info: bool,
        hasInit: bool, initOk: bool) returns (err: int, ghost symbols: seq<Ksym>)
      requires Valid()
      modifies this, table`used
      ensures Valid() && err == if memory && |undefined| <= entries && info && hasInit
          && forall j :: 0 <= j < |undefined| ==> Newest(old(table), undefined[j]) != null then 0 else -1
      ensures forall x :: x in old(table) ==>
        x.used == old(x.used)
          + if memory && (err != 0 || initOk) then multiset(Marks(old(table), undefined, entries))[x] else 0
      ensures err == 0 && !initOk ==> table == old(table)
      ensures forall j :: 0 <= j < |table| ==> table[j] in old(table) || fresh(table[j])
      ensures err != 0 || initOk ==>
        Made(symbols, old(table), if Loads(old(table), undefined, memory, entries, info) then exports else [])
      ensures forall j :: 0 <= j < |symbols| ==> fresh(symbols[j])
      ensures if err == 0 && initOk
        then loaded == old(loaded) + [Module(symbols, Resolution(old(table), undefined))]
        else loaded == old(loaded)
      ensures leftover == if err == 0 then old(leftover) else old(leftover) + Elems(symbols)
      ensures stale == if err == 0 || !memory then old(stale)
        else old(stale) + multiset(Marks(old(table), undefined, entries))
    {
      AllMarked(table, undefined, entries);
      hide LinkedIn, SourcedIn, StaleIn, Refs, Marked, Marks, Resolvable, Newest, Made, Resolution;
      err, symbols := LoadModule(undefined, exports, memory, entries, info, hasInit);
      if err < 0 {
        return;
      }
      if !initOk {
        ReleaseNew(symbols, old(table), exports, old(loaded));
      }
    }

    /** The module that has just been loaded is released again. */
    method ReleaseNew(ghost symbols: seq<Ksym>, ghost was: seq<Ksym>, ghost names: seq<string>,
        ghost before: seq<Module>)
      requires Valid() && |loaded| == |before| + 1 && loaded[..|before|] == before
      requires loaded[|before|].symbols == symbols
      requires Made(symbols, was, names) && forall j :: 0 <= j < |symbols| ==> symbols[j].used == 0
      modifies this`table, this`loaded, table`used
      ensures Valid() && table == was && loaded == before
      ensures forall x :: x in was ==> x.used == old(x.used) - multiset(old(loaded)[|before|].deps)[x]
    {
      hide LinkedIn, SourcedIn, StaleIn, Refs, Marked, Added, Distinct, Minus, Newest, Apart;
      forall x | x in was ensures x in table { AddedKeeps(was, symbols, x); }
      NewUnneeded(was, symbols);
      AddedThenGone(was, symbols);
      assert Rest(loaded, |before|) == before;
      ReleaseModule(|loaded| - 1);
    }

    /** A module that has just been loaded is not needed. */
    lemma NewUnneeded(was: seq<Ksym>, symbols: seq<Ksym>)
      requires Valid() && loaded != [] && loaded[|loaded| - 1].symbols == symbols
      requires forall j :: 0 <= j < |symbols| ==> symbols[j].used == 0
      ensures Unneeded(|loaded| - 1) && Distinct(table)
    {
      Removable(|loaded| - 1);
    }

    /** The module loaded last can be removed if and only if no load that failed has counted a use of
        one of its symbols. */
    lemma SomeRemovable()
      requires Valid() && loaded != []
      ensures var m := loaded[|loaded| - 1];
        (forall j :: 0 <= j < |m.symbols| ==> m.symbols[j].used == 0) <==>
        (forall j :: 0 <= j < |m.symbols| ==> m.symbols[j] !in stale)
    {
      LastUnreferenced(loaded);
      Removable(|loaded| - 1);
    }

    lemma NotExported(x: Ksym)
      requires Valid() && x in leftover
      ensures !Exported(loaded, x)
    {
    }

    /** What a loaded module depends on is still in the table and in use, so that deinstall_module does
        not remove it, and is the kernel's, left over, or exported by a module loaded earlier. */
    lemma DependencySafe(i: nat, x: Ksym)
      requires Valid() && i < |loaded| && x in loaded[i].deps
      ensures x in table && x.used > 0
      ensures x in kernel || x in leftover || exists j :: 0 <= j < i && x in loaded[j].symbols
      ensures forall j :: 0 <= j < |loaded| && x in loaded[j].symbols ==> j < i && !Unneeded(j)
    {
      RefsMember(loaded, x);
      assert Within(loaded[i].deps, table);
      assert forall j :: i <= j < |loaded| ==> Apart(loaded[i].deps, loaded[j].symbols);
    }
  }

  /** One module that exports one symbol. */
  method OneModule() returns (s: Loader, ghost f: Ksym)
    ensures fresh(s) && fresh(f) && s.Valid() && s.table == [f] && f.name == "f"
    ensures s.loaded == [Module([f], [])] && s.stale == multiset{}
  {
    hide LinkedIn, SourcedIn, StaleIn, Refs, Marked, Marks;
    s := new Loader([]);
    var err;
    ghost var symbols;
    err, symbols := s.InstallModule([], ["f"], true, 0, true, true, true);
    f := symbols[0];
    OneAdded(symbols);
    assert Resolution([], []) == [];
  }

  lemma OneAdded(symbols: seq<Ksym>)
    requires |symbols| == 1
    ensures Added([], symbols) == [symbols[0]] && symbols == [symbols[0]]
  {
    assert symbols[..0] == [];
  }

  lemma MarksOfTwo(f: Ksym)
    requires f.name == "f"
    ensures Marks([f], ["f", "g"], 2) == [f] && !Resolvable([f], ["f", "g"]) && Resolvable([f], ["f"])
    ensures Resolution([f], ["f"]) == [f]
  {
    assert ["f", "g"][1..] == ["g"] && ["f", "g"][1] == "g";
    assert Newest([f][1..], "g") == null;
    assert [f][0].name == "f" && Newest([f], "f") == f;
  }

  /** A load that fails at its second name has counted a use of the first. The module that exports it
      cannot be removed any more, although nothing depends on it. */
  method StuckModule() returns (s: Loader, refused: int)
    ensures fresh(s) && s.Valid() && refused != 0 && |s.loaded| == 1 && Refs(s.loaded) == multiset{}
  {
    ghost var f;
    s, f := OneModule();
    MarksOfTwo(f);
    assert Refs(s.loaded) == multiset{} by { assert s.loaded[1..] == []; }
    hide LinkedIn, SourcedIn, StaleIn, Refs, Marked, Marks, Resolvable;
    var err;
    ghost var symbols;
    err, symbols := s.InstallModule(["f", "g"], [], true, 2, true, true, true);
    assert f in s.stale && f == s.loaded[0].symbols[0];
    refused := s.DeinstallModule(0);
  }

  /** A load without an init_module leaves its symbol behind, and another module comes to depend on
      it: no loaded module exports that symbol. */
  method LeftoverDependency() returns (s: Loader, ghost x: Ksym)
    ensures fresh(s) && s.Valid() && |s.loaded| == 1 && x in s.loaded[0].deps && x in s.leftover
    ensures !Exported(s.loaded, x)
  {
    hide LinkedIn, SourcedIn, StaleIn, Refs, Marked, Marks;
    s := new Loader([]);
    var err;
    ghost var symbols;
    err, symbols := s.InstallModule([], ["f"], true, 0, true, false, true);
    x := symbols[0];
    OneAdded(symbols);
    MarksOfTwo(x);
    hide Resolvable, Resolution;
    err, symbols := s.InstallModule(["f"], [], true, 1, true, true, true);
    s.NotExported(x);
  }
}
