/** Symbols, their global counter, and the table that gives variables their names. */
module VariableTable {
  import opened Basics

  /** UINT32_MAX, the limit on live symbols. */
  const SYM_LIMIT: nat := 0xFFFF_FFFF

  datatype Symbol = Symbol(id: nat, template: bool)

  /** Decimal digits of `n`. */
  function Decimal(n: nat): (s: string)
    ensures s != []
    ensures forall i :: 0 <= i < |s| ==> '0' <= s[i] <= '9'
  {
    if n < 10 then [Digit(n)] else Decimal(n / 10) + [Digit(n % 10)]
  }

  function Digit(d: nat): (c: char)
    requires d < 10
    ensures '0' <= c <= '9' && c as int == '0' as int + d
  {
    ('0' as int + d) as char
  }

  lemma {:induction false} DecimalInjective(m: nat, n: nat)
    requires Decimal(m) == Decimal(n)
    ensures m == n
  {
    var s, t := Decimal(m), Decimal(n);
    if m >= 10 && n >= 10 {
      assert s[..|s| - 1] == Decimal(m / 10) && t[..|t| - 1] == Decimal(n / 10);
      assert s[|s| - 1] == Digit(m % 10) && t[|t| - 1] == Digit(n % 10);
      DecimalInjective(m / 10, n / 10);
    }
  }

  /** The number that a string of decimal digits denotes. */
  function Parse(s: string): int {
    if s == "" then 0 else 10 * Parse(s[..|s| - 1]) + (s[|s| - 1] as int - '0' as int)
  }

  /** The digits denote the number, and only 0 begins with the digit 0. */
  lemma {:induction false} DecimalDenotes(n: nat)
    ensures Parse(Decimal(n)) == n
    ensures Decimal(n)[0] == '0' <==> n == 0
  {
    var s := Decimal(n);
    if n >= 10 {
      DecimalDenotes(n / 10);
      assert s[..|s| - 1] == Decimal(n / 10) && s[|s| - 1] == Digit(n % 10);
    } else {
      assert s[..|s| - 1] == "";
    }
  }

  /** The name `add_var` binds for a single variable. */
  function NameFor(names: map<string, nat>, size: nat, asked: string): string {
    if asked == "" || asked in names then asked + "var_" + Decimal(size) else asked
  }

  /** The name `add_var` returns for a group; the group's own name is never entered in the table. */
  function GroupFor(names: map<string, nat>, asked: string): string {
    if asked == "" || asked in names then asked + "grp" + Decimal(|names|) else asked
  }

  /** A fresh name is used as it is. A name that is taken, or missing, is continued by a tag and a number: the
      size of the table for a variable, the number of names for a group. */
  lemma ChosenNames(names: map<string, nat>, size: nat, asked: string)
    ensures asked != "" && asked !in names ==> NameFor(names, size, asked) == asked == GroupFor(names, asked)
    ensures asked == "" || asked in names ==>
              && Continues(NameFor(names, size, asked), asked, "var_", size)
              && Continues(GroupFor(names, asked), asked, "grp", |names|)
  {
    hide Decimal, Continues;
    ContinuesAppended(asked, "var_", size);
    ContinuesAppended(asked, "grp", |names|);
  }

  /** `name` is `asked`, then `tag`, then digits that denote `n`. */
  ghost predicate Continues(name: string, asked: string, tag: string, n: nat) {
    && |asked| + |tag| < |name| && name[..|asked|] == asked && name[|asked|..|asked| + |tag|] == tag
    && (forall i :: |asked| + |tag| <= i < |name| ==> '0' <= name[i] <= '9') && Parse(name[|asked| + |tag|..]) == n
  }

  lemma ContinuesAppended(asked: string, tag: string, n: nat)
    ensures Continues(asked + tag + Decimal(n), asked, tag, n)
  {
    hide Decimal, Parse;
    DecimalDenotes(n);
    var name, k := asked + tag + Decimal(n), |asked| + |tag|;
    assert name[k..] == Decimal(n);
    forall i | k <= i < |name| ensures '0' <= name[i] <= '9' { assert name[i] == Decimal(n)[i - k]; }
  }

  function Member(group: string, i: nat): string {
    group + "_" + Decimal(i)
  }

  /** The table after binding members `0..n-1` of a group to consecutive variables from `size` on. */
  ghost function BindGroup(names: map<string, nat>, size: nat, n: nat, group: string): map<string, nat> {
    if n == 0 then names
    else BindGroup(names, size, n - 1, group)[Member(group, n - 1) := size + n - 1]
  }

  ghost predicate PointBelow(names: map<string, nat>, size: nat) {
    forall s :: s in names ==> names[s] < size
  }

  /** Each member resolves to its variable; other names keep theirs. */
  lemma {:induction false} BindGroupLookup(names: map<string, nat>, size: nat, n: nat, group: string)
    ensures forall i: nat :: i < n ==>
              Member(group, i) in BindGroup(names, size, n, group) && BindGroup(names, size, n, group)[Member(group, i)] == size + i
    ensures forall s :: s in BindGroup(names, size, n, group) && (forall i: nat :: i < n ==> s != Member(group, i)) ==>
              s in names && BindGroup(names, size, n, group)[s] == names[s]
    ensures forall s :: s in names ==> s in BindGroup(names, size, n, group)
  {
    if n != 0 {
      BindGroupLookup(names, size, n - 1, group);
      forall i: nat | i < n - 1 ensures Member(group, i) != Member(group, n - 1) {
        MemberInjective(group, i, n - 1);
      }
    }
  }

  /** `n` consecutive symbols as the counter hands them out. */
  function NewSymbols(first: nat, n: nat, template: bool): seq<Symbol> {
    seq(n, (i: nat) => Symbol(first + i, template))
  }

  lemma NewSymbolsStep(first: nat, n: nat, template: bool)
    ensures NewSymbols(first, n + 1, template) == NewSymbols(first, n, template) + [Symbol(first + n, template)]
  {}

  lemma NewSymbolsAre(first: nat, n: nat, template: bool)
    ensures |NewSymbols(first, n, template)| == n
    ensures forall i :: 0 <= i < n ==> NewSymbols(first, n, template)[i] == Symbol(first + i, template)
  {}

  lemma BindGroupStep(names: map<string, nat>, size: nat, n: nat, group: string)
    ensures BindGroup(names, size, 0, group) == names
    ensures BindGroup(names, size, n + 1, group) == BindGroup(names, size, n, group)[Member(group, n) := size + n]
  {}

  lemma MemberInjective(group: string, i: nat, j: nat)
    ensures Member(group, i) == Member(group, j) ==> i == j
  {
    if Member(group, i) == Member(group, j) {
      var k := |group + "_"|;
      assert Member(group, i)[k..] == Decimal(i) && Member(group, j)[k..] == Decimal(j);
      DecimalInjective(i, j);
    }
  }

  /** A member is named by its group, an underscore and its number. */
  lemma MemberContinues(group: string, i: nat)
    ensures Continues(Member(group, i), group, "_", i)
  {
    ContinuesAppended(group, "_", i);
  }

  lemma MemberLonger(group: string, i: nat)
    ensures |Member(group, i)| > |group|
  {}

  /** Binding one more variable keeps every earlier name on its variable exactly when the name chosen
      for it is not taken; a taken name is rebound, because the generated name is not checked. */
  lemma NamesKeptIff(names: map<string, nat>, size: nat, asked: string)
    requires PointBelow(names, size)
    ensures var name := NameFor(names, size, asked); var after := names[name := size];
            && name in after && after[name] == size
            && ((forall s :: s in names ==> after[s] == names[s]) <==> name !in names)
            && (name in names ==> asked == "" || asked in names)
  {}

  /** The members of a group resolve to the `n` variables from `size` on. */
  ghost predicate Resolves(names: map<string, nat>, group: string, n: nat, size: nat) {
    forall i: nat :: i < n ==> Member(group, i) in names && names[Member(group, i)] == size + i
  }

  /** Adding a group keeps every earlier name on its variable exactly when none of the member names was
      bound before. */
  lemma GroupNamesKeptIff(names: map<string, nat>, size: nat, n: nat, asked: string)
    requires PointBelow(names, size)
    ensures var group := GroupFor(names, asked); var after := BindGroup(names, size, n, group);
            (forall s :: s in names ==> s in after && after[s] == names[s]) <==> (forall i: nat :: i < n ==> Member(group, i) !in names)
  {
    hide Member, BindGroup;
    BindGroupLookup(names, size, n, GroupFor(names, asked));
  }

  /** Asking twice for a group of the same fresh name returns the same name both times, and the second
      call rebinds every member: the first group's variables become unreachable by name. */
  lemma RepeatedGroupRebinds(names: map<string, nat>, size: nat, n: nat, asked: string)
    requires asked != "" && asked !in names && 0 < n
    ensures var first := BindGroup(names, size, n, GroupFor(names, asked));
            var second := BindGroup(first, size + n, n, GroupFor(first, asked));
            && GroupFor(names, asked) == asked == GroupFor(first, asked)
            && Resolves(first, asked, n, size) && Resolves(second, asked, n, size + n)
            && !Resolves(second, asked, n, size)
  {
    hide Member, BindGroup;
    var first := BindGroup(names, size, n, asked);
    BindGroupLookup(names, size, n, asked);
    BindGroupLookup(first, size + n, n, asked);
    forall i: nat ensures asked != Member(asked, i) {
      MemberLonger(asked, i);
    }
    var second := BindGroup(first, size + n, n, asked);
    assert second[Member(asked, 0)] == size + n;
  }

  /** Symbols that can still be created. */
  function Free(count: nat): nat {
    if count < SYM_LIMIT then SYM_LIMIT - count else 0
  }

  class SymbolCounter {
    var count: nat

    constructor ()
      ensures count == 0
    {
      count := 0;
    }

    method Fresh(template: bool) returns (r: Result<Symbol>)
      modifies this
      ensures r.Ok? <==> old(count) < SYM_LIMIT
      ensures r.Ok? ==> r.value == Symbol(old(count), template) && count == old(count) + 1
      ensures r.Err? ==> count == old(count)
    {
      if count >= SYM_LIMIT {
        return Err("[ERROR](symbol.h) Maximum symbol limit reached");
      }
      r := Ok(Symbol(count, template));
      count := count + 1;
    }

    /** A symbol is destroyed; which one does not matter to the counter. */
    method Release()
      requires 0 < count
      modifies this
      ensures count == old(count) - 1
    {
      count := count - 1;
    }
  }

  /** Ids of the program variables among the given symbols. */
  function ProgramIds(symbols: seq<Symbol>): set<nat> {
    set i | 0 <= i < |symbols| && !symbols[i].template :: symbols[i].id
  }

  lemma ProgramIdsAppendTemplates(symbols: seq<Symbol>, more: seq<Symbol>)
    requires forall i :: 0 <= i < |more| ==> more[i].template
    ensures ProgramIds(symbols + more) == ProgramIds(symbols)
  {
    forall id | id in ProgramIds(symbols) ensures id in ProgramIds(symbols + more) {
      var i :| 0 <= i < |symbols| && !symbols[i].template && symbols[i].id == id;
      assert (symbols + more)[i] == symbols[i];
    }
  }

  class Table {
    const counter: SymbolCounter
    var names: map<string, nat>
    var symbols: seq<Symbol>

    /** Names point into the table, and the counter has handed out every id in it. */
    ghost predicate Valid()
      reads this, counter
    {
      PointBelow(names, |symbols|) && forall i :: 0 <= i < |symbols| ==> symbols[i].id < counter.count
    }

    /** The only live table, created first: ids are positions, as the solver's expression vector
        assumes. */
    ghost predicate Sole()
      reads this, counter
    {
      Valid() && counter.count == |symbols| && forall i :: 0 <= i < |symbols| ==> symbols[i].id == i
    }

    constructor (c: SymbolCounter)
      ensures counter == c && names == map[] && symbols == []
      ensures Valid() && (c.count == 0 ==> Sole())
    {
      counter := c;
      names := map[];
      symbols := [];
    }

    /** Creates the `n` initial program variables `var_0`, `var_1`, ... of a new table. When the symbols
        run out, one name more than there are symbols has been bound. */
    method Init(n: nat) returns (r: Result<()>)
      requires names == map[] && symbols == []
      modifies this, counter
      ensures r.Ok? <==> n <= Free(old(counter.count))
      ensures var k := if r.Ok? then n else Free(old(counter.count));
              && counter.count == old(counter.count) + k
              && symbols == NewSymbols(old(counter.count), k, false)
              && names == BindGroup(map[], 0, if r.Ok? then k else k + 1, "var")
      ensures r.Ok? ==> Valid() && (old(counter.count) == 0 ==> Sole())
    {
      hide Member, BindGroup, NewSymbols;
      var i := 0;
      BindGroupStep(names, 0, 0, "var");
      NewSymbolsAre(counter.count, 0, false);
      while i < n
        invariant 0 <= i <= n && i <= Free(old(counter.count)) && counter.count == old(counter.count) + i
        invariant names == BindGroup(map[], 0, i, "var") && PointBelow(names, i)
        invariant symbols == NewSymbols(old(counter.count), i, false) && |symbols| == i
      {
        BindGroupStep(map[], 0, i, "var");
        names := names[Member("var", i) := |symbols|];
        var sym := counter.Fresh(false);
        if sym.Err? { return Err(sym.error); }
        NewSymbolsStep(old(counter.count), i, false);
        symbols := symbols + [sym.value];
        i := i + 1;
      }
      NewSymbolsAre(old(counter.count), n, false);
      r := Ok(());
    }

    /** Appends one variable under a name derived from `asked`. When the symbols have run out, the name is
        bound all the same, to a position the table does not have. */
    method AddVar(template: bool, asked: string) returns (r: Result<string>)
      requires Valid()
      modifies this, counter
      ensures r.Ok? <==> old(counter.count) < SYM_LIMIT
      ensures names == old(names)[NameFor(old(names), |old(symbols)|, asked) := |old(symbols)|]
      ensures r.Ok? ==>
                && Valid() && r.value == NameFor(old(names), |old(symbols)|, asked)
                && symbols == old(symbols) + [Symbol(old(counter.count), template)]
                && counter.count == old(counter.count) + 1
      ensures r.Ok? && old(Sole()) ==> Sole()
      ensures r.Err? ==> symbols == old(symbols) && counter.count == old(counter.count) && !Valid()
    {
      var aname := asked;
      if aname == "" || aname in names {
        aname := aname + "var_" + Decimal(|symbols|);
      }
      names := names[aname := |symbols|];
      assert aname in names && names[aname] == |symbols|;
      var sym := counter.Fresh(template);
      if sym.Err? { return Err(sym.error); }
      symbols := symbols + [sym.value];
      r := Ok(aname);
    }

    /** Appends a group of `n` variables; member `i` of the returned name is the `i`-th of them. When the
        symbols run out, one name more than there are new symbols has been bound. */
    method AddGroup(n: nat, template: bool, asked: string) returns (r: Result<string>)
      requires Valid()
      modifies this, counter
      ensures r.Ok? <==> n <= Free(old(counter.count))
      ensures var k := if r.Ok? then n else Free(old(counter.count));
              && counter.count == old(counter.count) + k
              && symbols == old(symbols) + NewSymbols(old(counter.count), k, template)
              && names == BindGroup(old(names), |old(symbols)|, if r.Ok? then k else k + 1, GroupFor(old(names), asked))
      ensures r.Ok? ==> r.value == GroupFor(old(names), asked) && Valid() && (old(Sole()) ==> Sole())
    {
      hide Member, Decimal, BindGroup, NewSymbols;
      var group := asked;
      if group == "" || group in names {
        group := group + "grp" + Decimal(|names|);
      }
      var i := 0;
      ghost var base, size := counter.count, |symbols|;
      BindGroupStep(names, size, 0, group);
      NewSymbolsAre(base, 0, template);
      while i < n
        invariant 0 <= i <= n && i <= Free(base) && counter.count == base + i
        invariant names == BindGroup(old(names), size, i, group) && PointBelow(names, size + i)
        invariant symbols == old(symbols) + NewSymbols(base, i, template) && |symbols| == size + i
      {
        BindGroupStep(old(names), size, i, group);
        names := names[Member(group, i) := |symbols|];
        var sym := counter.Fresh(template);
        if sym.Err? { return Err(sym.error); }
        NewSymbolsStep(base, i, template);
        symbols := symbols + [sym.value];
        i := i + 1;
      }
      NewSymbolsAre(base, n, template);
      r := Ok(group);
    }

    /** Destroys every symbol of the table. */
    method Destroy()
      requires |symbols| <= counter.count
      modifies this, counter
      ensures counter.count == old(counter.count) - |old(symbols)| && symbols == [] && names == map[]
    {
      for i := 0 to |symbols|
        invariant symbols == old(symbols) && counter.count == old(counter.count) - i
      {
        counter.Release();
      }
      symbols, names := [], map[];
    }

    /** Position of member `idx` of a group, or an error for an unknown name. The position is in the table
        unless an earlier addition ran out of symbols. */
    method At(name: string, idx: nat) returns (r: Result<nat>)
      ensures r.Ok? <==> Member(name, idx) in names
      ensures r.Ok? ==> r.value == names[Member(name, idx)] && (Valid() ==> r.value < |symbols|)
    {
      var key := Member(name, idx);
      if key !in names { return Err("No such name [" + key + "]\n"); }
      r := Ok(names[key]);
    }
  }
}
