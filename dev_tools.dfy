/** Small helpers used when printing import statements for developers: the
    order on module names, the formatting of one import statement, the list
    that collects printed lines, and the filter that drops the `all` modules. */
module DevTools {
  import opened Words

  // ---------------------------------------------------------------------
  // Comparison of module names

  /** Python 2's `cmp` on integers: -1, 0 or 1. */
  function Cmp(a: int, b: int): (r: int)
    ensures r == 0 <==> a == b
    ensures r < 0 <==> a < b
    ensures r == -1 || r == 0 || r == 1
  {
    if a < b then -1 else if a > b then 1 else 0
  }

  /** Python 2's `cmp` on strings: lexicographic on character codes, a proper
      prefix first. */
  function StringCmp(x: string, y: string): (r: int)
    ensures r == -1 || r == 0 || r == 1
  {
    if x == [] then (if y == [] then 0 else -1)
    else if y == [] then 1
    else if x[0] != y[0] then Cmp(x[0] as int, y[0] as int)
    else StringCmp(x[1..], y[1..])
  }

  /** The number of occurrences of `c` in `s`, as `s.count(c)`. */
  function Count(s: string, c: char): (n: nat)
    ensures n <= |s|
  {
    if s == [] then 0 else (if s[0] == c then 1 else 0) + Count(s[1..], c)
  }

  /** Counting a character is taking its multiplicity. */
  lemma {:induction false} CountMultiplicity(s: string, c: char)
    ensures Count(s, c) == multiset(s)[c]
  {
    if s != [] {
      CountMultiplicity(s[1..], c);
      assert s == [s[0]] + s[1..];
    }
  }

  lemma {:induction false} CountAppend(a: string, b: string, c: char)
    ensures Count(a + b, c) == Count(a, c) + Count(b, c)
  {
    if a == [] {
      assert a + b == b;
    } else {
      assert (a + b)[1..] == a[1..] + b;
      CountAppend(a[1..], b, c);
    }
  }

  lemma {:induction false} CountAbsent(a: string, c: char)
    requires c !in a
    ensures Count(a, c) == 0
  {
    if a != [] {
      assert a == [a[0]] + a[1..];
      CountAbsent(a[1..], c);
    }
  }

  /** A submodule `a.b` of a top-level name `a` is one level deeper than `b`. */
  lemma SubmoduleDepth(a: string, b: string)
    requires '.' !in a
    ensures Count(a + "." + b, '.') == Count(b, '.') + 1
  {
    CountAppend(a + ".", b, '.');
    CountAppend(a, ".", '.');
    CountAbsent(a, '.');
  }

  /** Modules with fewer dots come first; names of the same depth are in
      alphabetical order. */
  function ModuleNamesCmp(x: string, y: string): (r: int)
    ensures r == -1 || r == 0 || r == 1
  {
    var test := Cmp(Count(x, '.'), Count(y, '.'));
    if test != 0 then test else StringCmp(x, y)
  }

  lemma {:induction false} StringCmpZero(x: string, y: string)
    ensures StringCmp(x, y) == 0 <==> x == y
  {
    if x != [] && y != [] && x[0] == y[0] {
      StringCmpZero(x[1..], y[1..]);
      if x[1..] == y[1..] {
        assert x == [x[0]] + x[1..] && y == [y[0]] + y[1..];
      }
    }
  }

  lemma {:induction false} StringCmpAntisymmetric(x: string, y: string)
    ensures StringCmp(y, x) == -StringCmp(x, y)
  {
    if x != [] && y != [] && x[0] == y[0] {
      StringCmpAntisymmetric(x[1..], y[1..]);
    }
  }

  lemma {:induction false} StringCmpTransitive(x: string, y: string, z: string)
    requires StringCmp(x, y) < 0 && StringCmp(y, z) < 0
    ensures StringCmp(x, z) < 0
  {
    if x != [] && x[0] == y[0] && y[0] == z[0] {
      StringCmpTransitive(x[1..], y[1..], z[1..]);
    }
  }

  /** A common prefix does not change the comparison. */
  lemma {:induction false} StringCmpCommonPrefix(p: string, x: string, y: string)
    ensures StringCmp(p + x, p + y) == StringCmp(x, y)
  {
    if p != [] {
      assert (p + x)[1..] == p[1..] + x && (p + y)[1..] == p[1..] + y;
      StringCmpCommonPrefix(p[1..], x, y);
    } else {
      assert p + x == x && p + y == y;
    }
  }

  /** The comparison is zero exactly on equal names. */
  lemma ModuleNamesCmpZero(x: string, y: string)
    ensures ModuleNamesCmp(x, y) == 0 <==> x == y
  {
    StringCmpZero(x, y);
  }

  /** Swapping the arguments negates the comparison. */
  lemma ModuleNamesCmpAntisymmetric(x: string, y: string)
    ensures ModuleNamesCmp(y, x) == -ModuleNamesCmp(x, y)
  {
    StringCmpAntisymmetric(x, y);
  }

  /** The order on module names is transitive. */
  lemma ModuleNamesCmpTransitive(x: string, y: string, z: string)
    requires ModuleNamesCmp(x, y) < 0 && ModuleNamesCmp(y, z) < 0
    ensures ModuleNamesCmp(x, z) < 0
  {
    if Count(x, '.') == Count(y, '.') == Count(z, '.') {
      StringCmpTransitive(x, y, z);
    }
  }

  /** The comparison is the lexicographic order on (number of dots, name):
      a shallower module always comes first. */
  lemma ModuleNamesCmpDepth(x: string, y: string)
    ensures Count(x, '.') < Count(y, '.') ==> ModuleNamesCmp(x, y) == -1
    ensures Count(x, '.') == Count(y, '.') ==> ModuleNamesCmp(x, y) == StringCmp(x, y)
  {
  }

  /** `l` is in strictly increasing order for the comparison. */
  ghost predicate StrictlySorted(l: seq<string>)
  {
    forall i, j :: 0 <= i < j < |l| ==> ModuleNamesCmp(l[i], l[j]) < 0
  }

  lemma DepthOfSageAll()
    ensures Count("sage.all", '.') == 1
  {
  }

  lemma DepthOfSageCombinat()
    ensures Count("sage.combinat", '.') == 1
  {
  }

  lemma DepthOfSageGroups()
    ensures Count("sage.groups.perm_gps", '.') == 2
  {
    assert "sage.groups.perm_gps" == "sage" + "." + ("groups" + "." + "perm_gps");
    SubmoduleDepth("sage", "groups" + "." + "perm_gps");
    SubmoduleDepth("groups", "perm_gps");
    CountAbsent("perm_gps", '.');
  }

  lemma DepthOfSagePlot()
    ensures Count("sage.plot.plot3d", '.') == 2
  {
    assert "sage.plot.plot3d" == "sage" + "." + ("plot" + "." + "plot3d");
    SubmoduleDepth("sage", "plot" + "." + "plot3d");
    SubmoduleDepth("plot", "plot3d");
    CountAbsent("plot3d", '.');
  }

  /** The neighbours in the sorted doctest list, one pair at a time. */
  lemma ExampleOrderFirst(x: string, y: string)
    requires x == "sage.all" && y == "sage.combinat"
    ensures ModuleNamesCmp(x, y) == -1
  {
    DepthOfSageAll();
    DepthOfSageCombinat();
    ExampleAlphabetical(x, y);
    ModuleNamesCmpDepth(x, y);
  }

  /** Two names that agree on their first `n` characters are in the order of
      their next characters. */
  lemma FirstDifference(x: string, y: string, n: nat)
    requires n < |x| && n < |y| && x[..n] == y[..n] && x[n] < y[n]
    ensures StringCmp(x, y) == -1
  {
    assert x == x[..n] + x[n..] && y == y[..n] + y[n..];
    StringCmpCommonPrefix(x[..n], x[n..], y[n..]);
  }

  /** The two neighbouring pairs of the doctest list with equal depth are in
      alphabetical order: they differ first right after "sage.". */
  lemma ExampleAlphabetical(x: string, y: string)
    requires (x == "sage.all" && y == "sage.combinat") ||
             (x == "sage.groups.perm_gps" && y == "sage.plot.plot3d")
    ensures StringCmp(x, y) == -1
  {
    FirstDifference(x, y, 5);
  }

  lemma ExampleOrderSecond(x: string, y: string)
    requires x == "sage.combinat" && y == "sage.groups.perm_gps"
    ensures ModuleNamesCmp(x, y) == -1
  {
    DepthOfSageCombinat();
    DepthOfSageGroups();
  }

  lemma ExampleOrderThird(x: string, y: string)
    requires x == "sage.groups.perm_gps" && y == "sage.plot.plot3d"
    ensures ModuleNamesCmp(x, y) == -1
  {
    DepthOfSageGroups();
    DepthOfSagePlot();
    ExampleAlphabetical(x, y);
    ModuleNamesCmpDepth(x, y);
  }

  /** A list whose neighbours are in strictly increasing order is sorted. */
  lemma {:induction false} SortedFromNeighbours(l: seq<string>)
    requires forall i :: 0 <= i < |l| - 1 ==> ModuleNamesCmp(l[i], l[i + 1]) < 0
    ensures StrictlySorted(l)
  {
    if |l| > 1 {
      var l' := l[..|l| - 1];
      assert forall i :: 0 <= i < |l'| ==> l'[i] == l[i];
      SortedFromNeighbours(l');
      forall i | 0 <= i < |l| - 1 ensures ModuleNamesCmp(l[i], l[|l| - 1]) < 0 {
        if i < |l| - 2 {
          assert l'[i] == l[i] && l'[|l| - 2] == l[|l| - 2];
          ModuleNamesCmpTransitive(l[i], l[|l| - 2], l[|l| - 1]);
        }
      }
    }
  }

  /** Four names whose neighbours are in increasing order are sorted. */
  lemma SortedOfFour(a: string, b: string, c: string, d: string)
    requires ModuleNamesCmp(a, b) < 0 && ModuleNamesCmp(b, c) < 0 && ModuleNamesCmp(c, d) < 0
    ensures StrictlySorted([a, b, c, d])
  {
    SortedFromNeighbours([a, b, c, d]);
  }

  /** The doctest's result ['sage.all', 'sage.combinat', 'sage.groups.perm_gps',
      'sage.plot.plot3d'] is in increasing order. */
  lemma ModuleNamesSortedExample(sorted: seq<string>)
    requires sorted == ["sage.all", "sage.combinat", "sage.groups.perm_gps", "sage.plot.plot3d"]
    ensures StrictlySorted(sorted)
  {
    var a, b, c, d := sorted[0], sorted[1], sorted[2], sorted[3];
    ExampleOrderFirst(a, b);
    ExampleOrderSecond(b, c);
    ExampleOrderThird(c, d);
    SortedOfFour(a, b, c, d);
    assert sorted == [a, b, c, d];
  }

  /** ... and it is a rearrangement of the doctest's input
      ['sage.groups.perm_gps', 'sage.combinat', 'sage.all', 'sage.plot.plot3d']. */
  lemma ModuleNamesSortPermutation(unsorted: seq<string>, sorted: seq<string>)
    requires unsorted == ["sage.groups.perm_gps", "sage.combinat", "sage.all", "sage.plot.plot3d"]
    requires sorted == ["sage.all", "sage.combinat", "sage.groups.perm_gps", "sage.plot.plot3d"]
    ensures multiset(sorted) == multiset(unsorted)
  {
    assert unsorted == [sorted[2], sorted[1], sorted[0], sorted[3]];
  }

  // ---------------------------------------------------------------------
  // Collecting printed lines

  /** A Python list of strings that printed lines are appended to. */
  class Answer {
    var lines: seq<string>

    constructor ()
      ensures lines == []
    {
      lines := [];
    }
  }

  /** Appends `s` to `data`; when there is no list the line goes to standard
      output, which is not modelled, and nothing changes. */
  method PrintOrUpdate(s: string, data: Answer?)
    modifies data
    ensures data != null ==> data.lines == old(data.lines) + [s]
  {
    if data != null {
      data.lines := data.lines + [s];
    }
  }

  /** `''.join(l)`. */
  function Join(l: seq<string>): (r: string)
    ensures l == [] ==> r == []
  {
    if l == [] then [] else Join(l[..|l| - 1]) + l[|l| - 1]
  }

  lemma {:induction false} JoinLength(l: seq<string>)
    ensures |Join(l)| == SumLengths(l)
  {
    if l != [] {
      JoinLength(l[..|l| - 1]);
    }
  }

  function SumLengths(l: seq<string>): nat
  {
    if l == [] then 0 else SumLengths(l[..|l| - 1]) + |l[|l| - 1]|
  }

  /** Appending "hello", " ", "world" and "!" to an empty list and joining
      gives "hello world!". */
  method HelloWorld() returns (text: string)
    ensures text == "hello world!"
  {
    var myList := new Answer();
    PrintOrUpdate("hello", myList);
    PrintOrUpdate(" ", myList);
    PrintOrUpdate("world", myList);
    PrintOrUpdate("!", myList);
    text := Join(myList.lines);
    HelloWorldJoin(myList.lines);
  }

  lemma HelloWorldJoin(l: seq<string>)
    requires l == ["hello", " ", "world", "!"]
    ensures Join(l) == "hello world!"
  {
    assert Join(l[..1]) == "hello" by {
      assert l[..1][..0] == [];
    }
    assert l[..2][..1] == l[..1] && l[..3][..2] == l[..2] && l[..4][..3] == l[..3] && l[..4] == l;
    assert Join(l[..2]) == "hello" + " " == "hello ";
    assert Join(l[..3]) == "hello " + "world" == "hello world";
    assert Join(l) == "hello world" + "!" == "hello world!";
  }

  // ---------------------------------------------------------------------
  // Import statements

  /** The text of the statement importing `name` from module `mod`: the two
      names with 19 fixed characters around them in the lazy form and 13 in
      the other, the module right after the opening keyword. */
  function ImportStatement(mod: string, name: string, lazy: bool): (r: string)
    ensures |r| == |mod| + |name| + (if lazy then 19 else 13)
    ensures var start := if lazy then 13 else 5; r[start..start + |mod|] == mod
  {
    if lazy then "lazy_import('" + mod + "', '" + name + "')"
    else "from " + mod + " import " + name
  }

  /** Prints, or appends to `answer`, the import statement. */
  method PrintImportStatement(mod: string, name: string, lazy: bool, answer: Answer?)
    modifies answer
    ensures answer != null ==> answer.lines == old(answer.lines) + [ImportStatement(mod, name, lazy)]
  {
    if lazy {
      PrintOrUpdate("lazy_import('" + mod + "', '" + name + "')", answer);
    } else {
      PrintOrUpdate("from " + mod + " import " + name, answer);
    }
  }

  /** A character that may occur in a dotted Python module name. */
  predicate NameChar(c: char)
  {
    ('a' <= c <= 'z') || ('A' <= c <= 'Z') || ('0' <= c <= '9') || c == '_' || c == '.'
  }

  /** A name made of letters, digits, underscores and dots. */
  predicate DottedName(s: string)
  {
    forall i :: 0 <= i < |s| ==> NameChar(s[i])
  }

  /** In `a + sep + b` with the first character of `sep` absent from `a`,
      that character first occurs right after `a`. */
  lemma FirstSeparator(a: string, sep: string, b: string)
    requires sep != [] && sep[0] !in a
    ensures (a + sep + b)[|a|] == sep[0]
    ensures forall i :: 0 <= i < |a| ==> (a + sep + b)[i] != sep[0]
  {
  }

  lemma SplitUnique(a: string, b: string, c: string, d: string, sep: string)
    requires sep != [] && sep[0] !in a && sep[0] !in c
    requires a + sep + b == c + sep + d
    ensures a == c && b == d
  {
    var s := a + sep + b;
    FirstSeparator(a, sep, b);
    FirstSeparator(c, sep, d);
    assert |a| == |c|;
    assert a == s[..|a|] == c;
    assert b == s[|a| + |sep|..] == d;
  }

  /** Module names hold neither spaces nor quotes. */
  lemma DottedNameSeparators(m: string)
    requires DottedName(m)
    ensures ' ' !in m && '\'' !in m
  {
    assert forall i :: 0 <= i < |m| ==> NameChar(m[i]);
  }

  /** Which statement is printed determines the lazy flag, the module and
      the name, as long as module names are dotted names. */
  lemma ImportStatementInjective(m1: string, n1: string, l1: bool, m2: string, n2: string, l2: bool)
    requires DottedName(m1) && DottedName(m2)
    requires ImportStatement(m1, n1, l1) == ImportStatement(m2, n2, l2)
    ensures m1 == m2 && n1 == n2 && l1 == l2
  {
    DottedNameSeparators(m1);
    DottedNameSeparators(m2);
    assert ImportStatement(m1, n1, l1)[0] == if l1 then 'l' else 'f';
    assert ImportStatement(m2, n2, l2)[0] == if l2 then 'l' else 'f';
    if l1 == l2 {
      if l1 {
        LazyImportInjective(m1, n1, m2, n2);
      } else {
        FromImportInjective(m1, n1, m2, n2);
      }
    }
  }

  lemma LazyImportInjective(m1: string, n1: string, m2: string, n2: string)
    requires '\'' !in m1 && '\'' !in m2
    requires ImportStatement(m1, n1, true) == ImportStatement(m2, n2, true)
    ensures m1 == m2 && n1 == n2
  {
    var p := "lazy_import('";
    var s := ImportStatement(m1, n1, true);
    assert s == p + (m1 + "', '" + (n1 + "')")) == p + (m2 + "', '" + (n2 + "')"));
    assert s[|p|..] == m1 + "', '" + (n1 + "')") == m2 + "', '" + (n2 + "')");
    SplitUnique(m1, n1 + "')", m2, n2 + "')", "', '");
    assert n1 == (n1 + "')")[..|n1|] && n2 == (n2 + "')")[..|n2|];
  }

  lemma FromImportInjective(m1: string, n1: string, m2: string, n2: string)
    requires ' ' !in m1 && ' ' !in m2
    requires ImportStatement(m1, n1, false) == ImportStatement(m2, n2, false)
    ensures m1 == m2 && n1 == n2
  {
    var p := "from ";
    var s := ImportStatement(m1, n1, false);
    assert s == p + (m1 + " import " + n1) == p + (m2 + " import " + n2);
    assert s[|p|..] == m1 + " import " + n1 == m2 + " import " + n2;
    SplitUnique(m1, n1, m2, n2, " import ");
  }

  /** The statement printed for print_import_statement itself. */
  lemma FromImportExample()
    ensures ImportStatement("sage.misc.dev_tools", "print_import_statement", false) ==
            "from sage.misc.dev_tools import print_import_statement"
  {
    FromImportPrefix();
    assert "from sage.misc.dev_tools import " + "print_import_statement" ==
           "from sage.misc.dev_tools import print_import_statement";
  }

  lemma FromImportPrefix()
    ensures "from " + "sage.misc.dev_tools" + " import " == "from sage.misc.dev_tools import "
  {
    assert "from " + "sage.misc.dev_tools" == "from sage.misc.dev_tools";
  }

  /** The lazy statement printed for print_import_statement itself. */
  lemma LazyImportExample()
    ensures ImportStatement("sage.misc.dev_tools", "print_import_statement", true) ==
            "lazy_import('sage.misc.dev_tools', 'print_import_statement')"
  {
    LazyImportPrefix();
    LazyImportSuffix();
  }

  lemma LazyImportPrefix()
    ensures "lazy_import('" + "sage.misc.dev_tools" + "', '" == "lazy_import('sage.misc.dev_tools', '"
  {
    assert "lazy_import('" + "sage.misc.dev_tools" == "lazy_import('sage.misc.dev_tools";
  }

  lemma LazyImportSuffix()
    ensures "lazy_import('sage.misc.dev_tools', '" + "print_import_statement" + "')" ==
            "lazy_import('sage.misc.dev_tools', 'print_import_statement')"
  {
    assert "lazy_import('sage.misc.dev_tools', '" + "print_import_statement" ==
           "lazy_import('sage.misc.dev_tools', 'print_import_statement";
  }

  // ---------------------------------------------------------------------
  // Dropping the `all` modules

  predicate EndsWith(s: string, suffix: string)
  {
    |suffix| <= |s| && s[|s| - |suffix|..] == suffix
  }

  /** A module name kept by the filter: it ends neither in "all" nor in
      "all_cmdline". */
  predicate NotAllModule(x: string)
  {
    !EndsWith(x, "all") && !EndsWith(x, "all_cmdline")
  }

  /** The modules that are not `all` modules, in their original order: a
      sublist of the input holding no `all` module. */
  function NotAllModules(modules: seq<string>): (kept: seq<string>)
    ensures |kept| <= |modules|
    ensures forall i :: 0 <= i < |kept| ==> NotAllModule(kept[i])
  {
    if modules == [] then []
    else NotAllModules(modules[..|modules| - 1]) +
         (if NotAllModule(modules[|modules| - 1]) then [modules[|modules| - 1]] else [])
  }

  /** A name is kept exactly when it is listed and is not an `all` module;
      a kept name is kept as many times as it is listed. */
  lemma {:induction false} NotAllModulesMembers(modules: seq<string>, x: string)
    ensures multiset(NotAllModules(modules))[x] == if NotAllModule(x) then multiset(modules)[x] else 0
    ensures x in NotAllModules(modules) <==> x in modules && NotAllModule(x)
  {
    if modules != [] {
      var n := |modules|;
      NotAllModulesMembers(modules[..n - 1], x);
      assert modules == modules[..n - 1] + [modules[n - 1]];
    }
  }

  /** Filtering a concatenation filters each part, so the kept names keep
      their relative order. */
  lemma {:induction false} NotAllModulesAppend(a: seq<string>, b: seq<string>)
    ensures NotAllModules(a + b) == NotAllModules(a) + NotAllModules(b)
    decreases |b|
  {
    if b == [] {
      assert a + b == a;
    } else {
      var n := |b|;
      AppendButLast(a, b);
      NotAllModulesAppend(a, b[..n - 1]);
    }
  }

  /** Filtering twice is filtering once. */
  lemma {:induction false} NotAllModulesIdempotent(modules: seq<string>)
    ensures NotAllModules(NotAllModules(modules)) == NotAllModules(modules)
  {
    if modules != [] {
      var n := |modules|;
      var rest := modules[..n - 1];
      var last := if NotAllModule(modules[n - 1]) then [modules[n - 1]] else [];
      NotAllModulesIdempotent(rest);
      NotAllModulesAppend(NotAllModules(rest), last);
      if last != [] {
        assert last[..0] == [];
      }
    }
  }

  lemma KeptExample(x: string)
    requires x == "sage.misc.dev_tools"
    ensures NotAllModule(x)
  {
    assert x[|x| - 1] == 's';
  }

  lemma DroppedExamples(x: string, y: string, z: string)
    requires x == "sage.misc.all" && y == "sage.all_cmdline" && z == "sage.misc.install"
    ensures !NotAllModule(x) && !NotAllModule(y) && !NotAllModule(z)
  {
    assert x[|x| - 3..] == "all";
    assert y[|y| - 11..] == "all_cmdline";
    assert z[|z| - 3..] == "all";
  }

  /** Names ending in "all" are dropped whatever precedes the suffix, so a
      module such as "sage.misc.install" goes with "sage.misc.all" and
      "sage.all_cmdline". */
  lemma NotAllModulesExample(modules: seq<string>)
    requires modules == ["sage.misc.dev_tools", "sage.misc.all", "sage.all_cmdline", "sage.misc.install"]
    ensures NotAllModules(modules) == ["sage.misc.dev_tools"]
  {
    KeptExample(modules[0]);
    DroppedExamples(modules[1], modules[2], modules[3]);
    NotAllModulesKeepsFirst(modules[0], modules[1], modules[2], modules[3]);
  }

  lemma NotAllModulesSingle(x: string)
    ensures NotAllModules([x]) == if NotAllModule(x) then [x] else []
  {
    assert [x][..0] == [];
  }

  /** Of four names, only the first of which is kept. */
  lemma NotAllModulesKeepsFirst(a: string, b: string, c: string, d: string)
    requires NotAllModule(a) && !NotAllModule(b) && !NotAllModule(c) && !NotAllModule(d)
    ensures NotAllModules([a, b, c, d]) == [a]
  {
    NotAllModulesSingle(a);
    NotAllModulesSingle(b);
    NotAllModulesSingle(c);
    NotAllModulesSingle(d);
    NotAllModulesAppend([a], [b]);
    NotAllModulesAppend([a, b], [c]);
    NotAllModulesAppend([a, b, c], [d]);
    assert [a] + [b] == [a, b] && [a, b] + [c] == [a, b, c] && [a, b, c] + [d] == [a, b, c, d];
  }
}
