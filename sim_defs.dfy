/**
 * Expansion of simulation settings (`read_sim_defs` in remixt/simulations/pipeline.py).
 *
 * Every definition whose name ends in `_settings` maps setting keys to lists of values.
 * The cartesian product of those lists gives one simulation per combination; a key that
 * is a tuple of names carries one value per name and is unzipped; the simulation's name
 * and the defaults are added; each simulation is keyed by its name and a hash of its settings.
 */
module SimulationDefs {
  import opened Wrappers

  /** A setting value as it appears in a settings file: a number, a string, or a tuple or list. */
  datatype Value = Scalar(x: real) | Text(s: string) | Tuple(items: seq<Value>)

  /** A settings key: one name, or a tuple of names whose values are set together. */
  datatype SettingKey = Single(name: string) | Tied(names: seq<string>)

  datatype DefsError =
    | IncompatibleLengths  // a tied key and its value differ in length
    | NotSized             // a tied key's value has no length
    | MissingValues        // some simulation lacks a setting another has (the null assertion)
    | DuplicateHash        // two simulations of one name hash alike
    | DefaultLengthMismatch  // a list-like default added as a column differs in length from the table

  /** One `*_settings` dict, in iteration order: each key with its list of values. */
  type Settings = seq<(SettingKey, seq<Value>)>

  /** One element of the product: each key with one of its values. */
  type Assignment = seq<(SettingKey, Value)>

  /** One simulation's settings, by setting name. */
  type Row = map<string, Value>

  // ------------------------------------------------------------ the product

  /** The number of combinations: the product of the lengths of the value lists. */
  function Count(s: Settings): nat
  {
    if s == [] then 1 else |s[0].1| * Count(s[1..])
  }

  /** Each value of `vs`, paired with `k`, in front of each assignment of `rest`, values slowest. */
  function Prefixed(k: SettingKey, vs: seq<Value>, rest: seq<Assignment>): seq<Assignment>
  {
    if vs == [] then []
    else seq(|rest|, j requires 0 <= j < |rest| => [(k, vs[0])] + rest[j]) + Prefixed(k, vs[1..], rest)
  }

  /** `itertools.product(*permute)`: all combinations, the first key varying slowest. */
  function Product(s: Settings): seq<Assignment>
  {
    if s == [] then [[]] else Prefixed(s[0].0, s[0].1, Product(s[1..]))
  }

  /** `a` takes, key by key, one of the values listed for that key. */
  predicate Conforms(a: Assignment, s: Settings)
  {
    |a| == |s| && forall i :: 0 <= i < |a| ==> a[i].0 == s[i].0 && a[i].1 in s[i].1
  }

  function Flat(i: nat, j: nat, width: nat): nat
  {
    i * width + j
  }

  lemma FlatStep(i: nat, j: nat, width: nat)
    requires i > 0
    ensures Flat(i, j, width) == width + Flat(i - 1, j, width)
  {
  }

  lemma FlatZero(j: nat, width: nat)
    ensures Flat(0, j, width) == j
  {
  }

  lemma {:induction false} PrefixedLength(k: SettingKey, vs: seq<Value>, rest: seq<Assignment>)
    ensures |Prefixed(k, vs, rest)| == |vs| * |rest|
  {
    if vs != [] {
      PrefixedLength(k, vs[1..], rest);
      assert |vs| * |rest| == |rest| + (|vs| - 1) * |rest|;
    }
  }

  /** Value i of the key in front of combination j of the rest sits at position i * |rest| + j. */
  lemma {:induction false} PrefixedAt(k: SettingKey, vs: seq<Value>, rest: seq<Assignment>, i: nat, j: nat)
    requires i < |vs| && j < |rest|
    ensures Flat(i, j, |rest|) < |Prefixed(k, vs, rest)|
    ensures Prefixed(k, vs, rest)[Flat(i, j, |rest|)] == [(k, vs[i])] + rest[j]
  {
    var head := seq(|rest|, j requires 0 <= j < |rest| => [(k, vs[0])] + rest[j]);
    var tail := Prefixed(k, vs[1..], rest);
    assert Prefixed(k, vs, rest) == head + tail;
    if i == 0 {
      FlatZero(j, |rest|);
    } else {
      FlatStep(i, j, |rest|);
      PrefixedAt(k, vs[1..], rest, i - 1, j);
      assert vs[1..][i - 1] == vs[i];
      assert (head + tail)[|rest| + Flat(i - 1, j, |rest|)] == tail[Flat(i - 1, j, |rest|)];
    }
  }

  lemma {:induction false} PrefixedMembers(k: SettingKey, vs: seq<Value>, rest: seq<Assignment>, a: Assignment)
    ensures a in Prefixed(k, vs, rest) <==> |a| > 0 && a[0].0 == k && a[0].1 in vs && a[1..] in rest
  {
    if vs != [] {
      PrefixedMembers(k, vs[1..], rest, a);
      var head := seq(|rest|, j requires 0 <= j < |rest| => [(k, vs[0])] + rest[j]);
      assert Prefixed(k, vs, rest) == head + Prefixed(k, vs[1..], rest);
      if a in head {
        var j :| 0 <= j < |rest| && head[j] == a;
        assert a[1..] == rest[j];
      }
      if |a| > 0 && a[0] == (k, vs[0]) && a[1..] in rest {
        var j :| 0 <= j < |rest| && rest[j] == a[1..];
        assert head[j] == a;
      }
      if |a| > 0 && a[0].1 in vs && a[0].1 != vs[0] {
        assert a[0].1 in vs[1..];
      }
    }
  }

  /** There are as many combinations as the product of the lengths of the value lists. */
  lemma {:induction false} ProductCount(s: Settings)
    ensures |Product(s)| == Count(s)
  {
    if s != [] {
      ProductCount(s[1..]);
      PrefixedLength(s[0].0, s[0].1, Product(s[1..]));
    }
  }

  /** The combinations are exactly the assignments that take one listed value per key. */
  lemma {:induction false} ProductMembers(s: Settings, a: Assignment)
    ensures a in Product(s) <==> Conforms(a, s)
  {
    if s == [] {
      assert Product(s) == [[]];
    } else if a == [] {
      PrefixedMembers(s[0].0, s[0].1, Product(s[1..]), a);
    } else {
      ProductMembers(s[1..], a[1..]);
      PrefixedMembers(s[0].0, s[0].1, Product(s[1..]), a);
      if Conforms(a, s) {
        assert Conforms(a[1..], s[1..]) by {
          forall i | 0 <= i < |a| - 1
            ensures a[1..][i].0 == s[1..][i].0 && a[1..][i].1 in s[1..][i].1
          {
            assert a[1..][i] == a[i + 1];
          }
        }
      }
      if a in Product(s) {
        assert Conforms(a[1..], s[1..]);
        forall i | 0 <= i < |a|
          ensures a[i].0 == s[i].0 && a[i].1 in s[i].1
        {
          if i > 0 {
            assert a[1..][i - 1] == a[i];
          }
        }
      }
    }
  }

  /** The first key varies slowest: combination i * w + j pairs the first key's i-th value with the j-th combination of the rest. */
  lemma ProductOrder(s: Settings, i: nat, j: nat)
    requires |s| > 0 && i < |s[0].1| && j < |Product(s[1..])|
    ensures Flat(i, j, |Product(s[1..])|) < |Product(s)|
    ensures Product(s)[Flat(i, j, |Product(s[1..])|)] == [(s[0].0, s[0].1[i])] + Product(s[1..])[j]
  {
    PrefixedAt(s[0].0, s[0].1, Product(s[1..]), i, j);
  }

  // ------------------------------------------------------------ unzipping

  /** `len(value)`, absent for a number. */
  function Len(v: Value): Option<nat>
  {
    match v
    case Scalar(_) => None
    case Text(s) => Some(|s|)
    case Tuple(items) => Some(|items|)
  }

  /** The i-th element of a string or tuple; a string's elements are one-character strings. */
  function Item(v: Value, i: nat): Value
    requires Len(v).Some? && i < Len(v).value
  {
    match v
    case Text(s) => Text([s[i]])
    case Tuple(items) => items[i]
  }

  /** `unzip_tied_setting`: a tied key yields each name with its own element of the value. */
  function UnzipTied(key: SettingKey, value: Value): (r: Result<seq<(string, Value)>, DefsError>)
    ensures key.Single? ==> r == Ok([(key.name, value)])
    ensures key.Tied? && Len(value).None? ==> r == Err(NotSized)
    ensures key.Tied? && Len(value).Some? && Len(value).value != |key.names| ==> r == Err(IncompatibleLengths)
    ensures key.Tied? && Len(value) == Some(|key.names|) ==>
      r.Ok? && |r.value| == |key.names| &&
      forall i :: 0 <= i < |key.names| ==> r.value[i] == (key.names[i], Item(value, i))
  {
    match key
    case Single(name) => Ok([(name, value)])
    case Tied(names) =>
      match Len(value)
      case None => Err(NotSized)
      case Some(n) =>
        if n != |names| then Err(IncompatibleLengths)
        else Ok(seq(n, i requires 0 <= i < n => (names[i], Item(value, i))))
  }

  /** `unzip_sim`: the unzipped pairs of every key, in order; the first failing key's error. */
  function UnzipSim(a: Assignment): Result<seq<(string, Value)>, DefsError>
  {
    if a == [] then Ok([])
    else
      match UnzipTied(a[0].0, a[0].1)
      case Err(e) => Err(e)
      case Ok(p) =>
        match UnzipSim(a[1..])
        case Err(e) => Err(e)
        case Ok(q) => Ok(p + q)
  }

  /** The number of names a key sets. */
  function Arity(key: SettingKey): nat
  {
    if key.Single? then 1 else |key.names|
  }

  function TotalArity(a: Assignment): nat
  {
    if a == [] then 0 else Arity(a[0].0) + TotalArity(a[1..])
  }

  /** A combination unzips exactly when each of its keys does, and then into one pair per name. */
  lemma {:induction false} UnzipSimSpec(a: Assignment)
    ensures UnzipSim(a).Ok? <==> forall i :: 0 <= i < |a| ==> UnzipTied(a[i].0, a[i].1).Ok?
    ensures UnzipSim(a).Ok? ==> |UnzipSim(a).value| == TotalArity(a)
  {
    if a != [] {
      UnzipSimSpec(a[1..]);
      if forall i :: 0 <= i < |a| ==> UnzipTied(a[i].0, a[i].1).Ok? {
        assert forall i :: 0 <= i < |a| - 1 ==> a[1..][i] == a[i + 1];
      }
      if UnzipSim(a).Ok? {
        forall i | 0 <= i < |a|
          ensures UnzipTied(a[i].0, a[i].1).Ok?
        {
          if i > 0 {
            assert a[1..][i - 1] == a[i];
          }
        }
      }
    }
  }

  /** `dict(pairs)`: a later pair for the same name wins. */
  function ToDict(pairs: seq<(string, Value)>): Row
  {
    if pairs == [] then map[]
    else ToDict(pairs[..|pairs| - 1])[pairs[|pairs| - 1].0 := pairs[|pairs| - 1].1]
  }

  function Names(pairs: seq<(string, Value)>): set<string>
  {
    set i | 0 <= i < |pairs| :: pairs[i].0
  }

  lemma NamesAppend(pairs: seq<(string, Value)>)
    requires pairs != []
    ensures Names(pairs) == Names(pairs[..|pairs| - 1]) + {pairs[|pairs| - 1].0}
  {
    var init := pairs[..|pairs| - 1];
    forall x | x in Names(pairs)
      ensures x in Names(init) + {pairs[|pairs| - 1].0}
    {
      var i :| 0 <= i < |pairs| && pairs[i].0 == x;
      if i < |init| {
        assert init[i].0 == x;
      }
    }
    forall x | x in Names(init)
      ensures x in Names(pairs)
    {
      var i :| 0 <= i < |init| && init[i].0 == x;
      assert pairs[i].0 == x;
    }
  }

  /** The dict holds exactly the names of the pairs. */
  lemma {:induction false} ToDictNames(pairs: seq<(string, Value)>)
    ensures ToDict(pairs).Keys == Names(pairs)
  {
    if pairs != [] {
      ToDictNames(pairs[..|pairs| - 1]);
      NamesAppend(pairs);
    }
  }

  /** Each name holds the value of the last pair naming it. */
  lemma {:induction false} ToDictLastWins(pairs: seq<(string, Value)>, i: nat)
    requires i < |pairs| && forall i' :: i < i' < |pairs| ==> pairs[i'].0 != pairs[i].0
    ensures pairs[i].0 in ToDict(pairs) && ToDict(pairs)[pairs[i].0] == pairs[i].1
  {
    if i < |pairs| - 1 {
      var init := pairs[..|pairs| - 1];
      assert init[i] == pairs[i];
      ToDictLastWins(init, i);
    }
  }

  /** Unzip every combination, then require every simulation to set the same names (no nulls). */
  function UnzipAll(ps: seq<Assignment>): Result<seq<Row>, DefsError>
  {
    if ps == [] then Ok([])
    else
      match UnzipSim(ps[0])
      case Err(e) => Err(e)
      case Ok(pairs) =>
        match UnzipAll(ps[1..])
        case Err(e) => Err(e)
        case Ok(rows) => Ok([ToDict(pairs)] + rows)
  }

  predicate SameNames(rows: seq<Row>)
  {
    forall i :: 0 <= i < |rows| ==> rows[i].Keys == rows[0].Keys
  }

  /** The expanded settings table: one row per combination, or the first error. */
  function Expand(s: Settings): Result<seq<Row>, DefsError>
  {
    match UnzipAll(Product(s))
    case Err(e) => Err(e)
    case Ok(rows) => if SameNames(rows) then Ok(rows) else Err(MissingValues)
  }

  lemma {:induction false} UnzipAllLength(ps: seq<Assignment>)
    ensures UnzipAll(ps).Ok? ==> |UnzipAll(ps).value| == |ps|
    ensures UnzipAll(ps).Ok? ==> forall i :: 0 <= i < |ps| ==>
      UnzipSim(ps[i]).Ok? && UnzipAll(ps).value[i] == ToDict(UnzipSim(ps[i]).value)
  {
    if ps != [] {
      UnzipAllLength(ps[1..]);
      if UnzipAll(ps).Ok? {
        forall i | 0 < i < |ps|
          ensures UnzipAll(ps).value[i] == UnzipAll(ps[1..]).value[i - 1]
        {
        }
        assert forall i :: 0 < i < |ps| ==> ps[1..][i - 1] == ps[i];
      }
    }
  }

  /** Every simulation of a settings dict comes from one combination of its listed values. */
  lemma ExpandSpec(s: Settings)
    ensures |Product(s)| == Count(s)
    ensures Expand(s).Ok? ==> |Expand(s).value| == Count(s) && SameNames(Expand(s).value)
    ensures Expand(s).Ok? ==> forall i :: 0 <= i < |Product(s)| ==>
      Conforms(Product(s)[i], s) && UnzipSim(Product(s)[i]).Ok? &&
      Expand(s).value[i] == ToDict(UnzipSim(Product(s)[i]).value)
  {
    ProductCount(s);
    UnzipAllLength(Product(s));
    forall i | 0 <= i < |Product(s)|
      ensures Conforms(Product(s)[i], s)
    {
      ProductMembers(s, Product(s)[i]);
    }
  }

  // ------------------------------------------------------------ name, defaults, hash

  /**
   * `settings_df[key] = value` as seen by row i of a table of n rows: a list-like value of
   * length n supplies its i-th element; any other value is broadcast to every row.
   */
  function DefaultCell(v: Value, n: nat, i: nat): Value
  {
    if v.Tuple? && |v.items| == n && i < n then v.items[i] else v
  }

  /**
   * The default-filling loop, seen from row i of n: a default is added only for a name the
   * row does not set yet, with the cell the column assignment gives that row.
   */
  function WithDefaults(row: Row, defaults: seq<(string, Value)>, n: nat, i: nat): Row
    decreases |defaults|
  {
    if defaults == [] then row
    else
      var (k, v) := defaults[0];
      WithDefaults(if k in row then row else row[k := DefaultCell(v, n, i)], defaults[1..], n, i)
  }

  /** Default d is added by the loop: its name is not a column already, nor an earlier default's name. */
  predicate Fresh(names: set<string>, defaults: seq<(string, Value)>, d: nat)
    requires d < |defaults|
  {
    defaults[d].0 !in names && forall e :: 0 <= e < d ==> defaults[e].0 != defaults[d].0
  }

  /**
   * The column assignments of the loop all succeed on a table of n rows with columns `names`:
   * no list-like default that is added has a length other than n (pandas raises ValueError).
   */
  predicate DefaultsFit(names: set<string>, defaults: seq<(string, Value)>, n: nat)
    decreases |defaults|
  {
    defaults == [] ||
    ((defaults[0].0 in names || !defaults[0].1.Tuple? || |defaults[0].1.items| == n) &&
     DefaultsFit(names + {defaults[0].0}, defaults[1..], n))
  }

  lemma FreshShift(names: set<string>, defaults: seq<(string, Value)>, d: nat)
    requires 0 < d < |defaults|
    ensures Fresh(names, defaults, d) <==> Fresh(names + {defaults[0].0}, defaults[1..], d - 1)
  {
    if Fresh(names + {defaults[0].0}, defaults[1..], d - 1) {
      forall e | 0 <= e < d
        ensures defaults[e].0 != defaults[d].0
      {
        if e > 0 {
          assert defaults[1..][e - 1] == defaults[e];
        }
      }
    }
    if Fresh(names, defaults, d) {
      forall e | 0 <= e < d - 1
        ensures defaults[1..][e].0 != defaults[1..][d - 1].0
      {
        assert defaults[1..][e] == defaults[e + 1];
      }
    }
  }

  /** The loop succeeds exactly when every default it adds is a scalar or a list of the table's length. */
  lemma {:induction false} DefaultsFitSpec(names: set<string>, defaults: seq<(string, Value)>, n: nat)
    decreases |defaults|
    ensures DefaultsFit(names, defaults, n) <==>
      forall d :: 0 <= d < |defaults| && Fresh(names, defaults, d) ==>
        !defaults[d].1.Tuple? || |defaults[d].1.items| == n
  {
    if defaults != [] {
      var names' := names + {defaults[0].0};
      DefaultsFitSpec(names', defaults[1..], n);
      forall d | 0 < d < |defaults|
        ensures Fresh(names, defaults, d) <==> Fresh(names', defaults[1..], d - 1)
        ensures defaults[1..][d - 1] == defaults[d]
      {
        FreshShift(names, defaults, d);
      }
      if !DefaultsFit(names, defaults, n) && (defaults[0].0 in names || !defaults[0].1.Tuple? || |defaults[0].1.items| == n) {
        var d' :| 0 <= d' < |defaults| - 1 && Fresh(names', defaults[1..], d') &&
          !(!defaults[1..][d'].1.Tuple? || |defaults[1..][d'].1.items| == n);
        assert Fresh(names, defaults, d' + 1);
      }
      if !DefaultsFit(names, defaults, n) && !(defaults[0].0 in names || !defaults[0].1.Tuple? || |defaults[0].1.items| == n) {
        assert Fresh(names, defaults, 0);
      }
    }
  }

  lemma NamesCons(pairs: seq<(string, Value)>)
    requires pairs != []
    ensures Names(pairs) == {pairs[0].0} + Names(pairs[1..])
  {
    forall x | x in Names(pairs)
      ensures x in {pairs[0].0} + Names(pairs[1..])
    {
      var i :| 0 <= i < |pairs| && pairs[i].0 == x;
      if i > 0 {
        assert pairs[1..][i - 1].0 == x;
      }
    }
    forall x | x in Names(pairs[1..])
      ensures x in Names(pairs)
    {
      var i :| 0 <= i < |pairs| - 1 && pairs[1..][i].0 == x;
      assert pairs[i + 1].0 == x;
    }
  }

  /** Afterwards the row holds its own names and every default name. */
  lemma {:induction false} WithDefaultsKeys(row: Row, defaults: seq<(string, Value)>, n: nat, i: nat)
    decreases |defaults|
    ensures WithDefaults(row, defaults, n, i).Keys == row.Keys + Names(defaults)
  {
    if defaults != [] {
      var (k, v) := defaults[0];
      WithDefaultsKeys(if k in row then row else row[k := DefaultCell(v, n, i)], defaults[1..], n, i);
      NamesCons(defaults);
    }
  }

  /** Defaults never overwrite a name the row already has. */
  lemma {:induction false} WithDefaultsKeeps(row: Row, defaults: seq<(string, Value)>, n: nat, i: nat, k: string)
    requires k in row
    decreases |defaults|
    ensures k in WithDefaults(row, defaults, n, i) && WithDefaults(row, defaults, n, i)[k] == row[k]
  {
    if defaults != [] {
      var (k0, v) := defaults[0];
      WithDefaultsKeeps(if k0 in row then row else row[k0 := DefaultCell(v, n, i)], defaults[1..], n, i, k);
    }
  }

  /**
   * A default the loop adds gives row i of n its cell: element i of a list of length n,
   * or the value itself when it is not list-like.
   */
  lemma {:induction false} WithDefaultsFirst(row: Row, defaults: seq<(string, Value)>, n: nat, i: nat, d: nat)
    requires d < |defaults| && Fresh(row.Keys, defaults, d)
    requires i < n && (defaults[d].1.Tuple? ==> |defaults[d].1.items| == n)
    decreases |defaults|
    ensures defaults[d].0 in WithDefaults(row, defaults, n, i)
    ensures defaults[d].1.Tuple? ==> WithDefaults(row, defaults, n, i)[defaults[d].0] == defaults[d].1.items[i]
    ensures !defaults[d].1.Tuple? ==> WithDefaults(row, defaults, n, i)[defaults[d].0] == defaults[d].1
  {
    var (k, v) := defaults[0];
    var row' := if k in row then row else row[k := DefaultCell(v, n, i)];
    if d == 0 {
      WithDefaultsKeeps(row', defaults[1..], n, i, k);
    } else {
      assert defaults[1..][d - 1] == defaults[d];
      forall e | 0 <= e < d - 1
        ensures defaults[1..][e].0 != defaults[1..][d - 1].0
      {
        assert defaults[1..][e] == defaults[e + 1];
      }
      WithDefaultsFirst(row', defaults[1..], n, i, d - 1);
    }
  }

  /** The row a simulation is hashed from: its settings, its name, then the defaults, as row i of n. */
  function Completed(name: string, row: Row, defaults: seq<(string, Value)>, n: nat, i: nat): Row
  {
    WithDefaults(row["name" := Text(name)], defaults, n, i)
  }

  /** The columns of the expanded table once the name is set: every row's names, and `name`. */
  function Columns(rows: seq<Row>): set<string>
  {
    (if |rows| > 0 then rows[0].Keys else {}) + {"name"}
  }

  function Digit(d: nat): char
    requires d < 10
  {
    "0123456789"[d]
  }

  predicate IsDigits(s: string)
  {
    |s| > 0 && forall i :: 0 <= i < |s| ==> '0' <= s[i] <= '9'
  }

  /** `str(n)`: decimal digits, most significant first. */
  function NatToString(n: nat): (s: string)
    ensures IsDigits(s)
  {
    if n < 10 then [Digit(n)] else NatToString(n / 10) + [Digit(n % 10)]
  }

  /** `name + '_' + sim_hash`. */
  function SimId(name: string, hash: string): string
  {
    name + "_" + hash
  }

  /** `id` is `name_<digits>`. */
  ghost predicate IsSimIdOf(id: string, name: string)
  {
    exists h :: IsDigits(h) && id == SimId(name, h)
  }

  /** Since a hash has digits only, the last underscore of an id separates its name from its hash. */
  lemma SimIdInjective(name1: string, hash1: string, name2: string, hash2: string)
    requires IsDigits(hash1) && IsDigits(hash2)
    requires SimId(name1, hash1) == SimId(name2, hash2)
    ensures name1 == name2 && hash1 == hash2
  {
    var id := SimId(name1, hash1);
    assert id[|name1|] == '_' && id[|name2|] == '_';
    forall q | |name1| < q < |id|
      ensures id[q] != '_'
    {
      assert id[q] == hash1[q - |name1| - 1];
    }
    forall q | |name2| < q < |id|
      ensures id[q] != '_'
    {
      assert id[q] == SimId(name2, hash2)[q] == hash2[q - |name2| - 1];
    }
    assert name1 == id[..|name1|] == name2;
    assert hash1 == id[|name1| + 1..] == hash2;
  }

  /** The dict stored for a simulation: its completed row plus its hash and id columns. */
  function Record(name: string, row: Row, hash: string): Row
  {
    row["sim_hash" := Text(hash)]["sim_id" := Text(SimId(name, hash))]
  }

  predicate Distinct(hashes: seq<string>)
  {
    forall i, j :: 0 <= i < j < |hashes| ==> hashes[i] != hashes[j]
  }

  /**
   * The simulations of one `<name>_settings` dict, each with its id, or the first error.
   * `simHash` stands for `abs(hash(frozenset(row.items())))`.
   */
  function SimsOf(name: string, s: Settings, defaults: seq<(string, Value)>, simHash: Row -> nat)
    : Result<seq<(string, Row)>, DefsError>
  {
    match Expand(s)
    case Err(e) => Err(e)
    case Ok(rows) =>
      if !DefaultsFit(Columns(rows), defaults, |rows|) then Err(DefaultLengthMismatch)
      else
        var full := seq(|rows|, i requires 0 <= i < |rows| => Completed(name, rows[i], defaults, |rows|, i));
        var hashes := seq(|full|, i requires 0 <= i < |full| => NatToString(simHash(full[i])));
        if !Distinct(hashes) then Err(DuplicateHash)
        else Ok(seq(|full|, i requires 0 <= i < |full| => (SimId(name, hashes[i]), Record(name, full[i], hashes[i]))))
  }

  /** Once the settings expand, the defaults fail exactly when a list-like default added as a column has the wrong length. */
  lemma SimsOfDefaultsError(name: string, s: Settings, defaults: seq<(string, Value)>, simHash: Row -> nat)
    requires Expand(s).Ok?
    ensures SimsOf(name, s, defaults, simHash) == Err(DefaultLengthMismatch) <==>
      exists d :: 0 <= d < |defaults| && Fresh(Columns(Expand(s).value), defaults, d) &&
        defaults[d].1.Tuple? && |defaults[d].1.items| != |Expand(s).value|
  {
    DefaultsFitSpec(Columns(Expand(s).value), defaults, |Expand(s).value|);
  }

  /**
   * Simulation i of n holds, under each default name the loop adds (other than the two id
   * columns), element i of a list-like default or the scalar default itself.
   */
  lemma SimsOfDefaultCell(name: string, s: Settings, defaults: seq<(string, Value)>, simHash: Row -> nat, i: nat, d: nat)
    requires SimsOf(name, s, defaults, simHash).Ok? && i < |SimsOf(name, s, defaults, simHash).value|
    requires d < |defaults| && Fresh(Columns(Expand(s).value), defaults, d)
    requires defaults[d].0 != "sim_hash" && defaults[d].0 != "sim_id"
    ensures var sim := SimsOf(name, s, defaults, simHash).value[i];
      defaults[d].0 in sim.1 &&
      sim.1[defaults[d].0] == DefaultCell(defaults[d].1, |SimsOf(name, s, defaults, simHash).value|, i)
  {
    var rows := Expand(s).value;
    DefaultsFitSpec(Columns(rows), defaults, |rows|);
    var row := rows[i]["name" := Text(name)];
    assert row.Keys == Columns(rows);
    WithDefaultsFirst(row, defaults, |rows|, i, d);
  }

  /**
   * A settings dict yields one simulation per combination, under distinct ids of the form
   * `name_<digits>`; each carries its name and every default name.
   */
  lemma SimsOfSpec(name: string, s: Settings, defaults: seq<(string, Value)>, simHash: Row -> nat)
    requires SimsOf(name, s, defaults, simHash).Ok?
    ensures |SimsOf(name, s, defaults, simHash).value| == Count(s)
    ensures var sims := SimsOf(name, s, defaults, simHash).value;
      forall i, j :: 0 <= i < j < |sims| ==> sims[i].0 != sims[j].0
    ensures var sims := SimsOf(name, s, defaults, simHash).value;
      forall i :: 0 <= i < |sims| ==> IsSimIdOf(sims[i].0, name)
    ensures var sims := SimsOf(name, s, defaults, simHash).value;
      forall i :: 0 <= i < |sims| ==> "name" in sims[i].1 && sims[i].1["name"] == Text(name)
    ensures var sims := SimsOf(name, s, defaults, simHash).value;
      forall i, d :: 0 <= i < |sims| && 0 <= d < |defaults| ==> defaults[d].0 in sims[i].1
  {
    ExpandSpec(s);
    var sims := SimsOf(name, s, defaults, simHash).value;
    forall i | 0 <= i < |sims|
      ensures "name" in sims[i].1 && sims[i].1["name"] == Text(name)
      ensures forall d :: 0 <= d < |defaults| ==> defaults[d].0 in sims[i].1
    {
      SimsOfEntry(name, s, defaults, simHash, i);
    }
    forall i | 0 <= i < |sims|
      ensures IsSimIdOf(sims[i].0, name)
    {
      SimsOfEntry(name, s, defaults, simHash, i);
    }
    forall i, j | 0 <= i < j < |sims|
      ensures sims[i].0 != sims[j].0
    {
      SimsOfDistinct(name, s, defaults, simHash, i, j);
    }
  }

  /** Simulation i has an id `name_<digits>`, carries its name and every default name. */
  lemma SimsOfEntry(name: string, s: Settings, defaults: seq<(string, Value)>, simHash: Row -> nat, i: nat)
    requires SimsOf(name, s, defaults, simHash).Ok? && i < |SimsOf(name, s, defaults, simHash).value|
    ensures var sim := SimsOf(name, s, defaults, simHash).value[i];
      && IsSimIdOf(sim.0, name)
      && "name" in sim.1 && sim.1["name"] == Text(name)
      && forall d :: 0 <= d < |defaults| ==> defaults[d].0 in sim.1
  {
    var rows := Expand(s).value;
    var sim := SimsOf(name, s, defaults, simHash).value[i];
    var h := NatToString(simHash(Completed(name, rows[i], defaults, |rows|, i)));
    assert IsDigits(h) && sim.0 == SimId(name, h);
    WithDefaultsKeeps(rows[i]["name" := Text(name)], defaults, |rows|, i, "name");
    WithDefaultsKeys(rows[i]["name" := Text(name)], defaults, |rows|, i);
    forall d | 0 <= d < |defaults|
      ensures defaults[d].0 in Names(defaults)
    {
    }
  }

  /** Two simulations of one definition have different ids. */
  lemma SimsOfDistinct(name: string, s: Settings, defaults: seq<(string, Value)>, simHash: Row -> nat, i: nat, j: nat)
    requires SimsOf(name, s, defaults, simHash).Ok? && i < j < |SimsOf(name, s, defaults, simHash).value|
    ensures SimsOf(name, s, defaults, simHash).value[i].0 != SimsOf(name, s, defaults, simHash).value[j].0
  {
    var rows := Expand(s).value;
    var sims := SimsOf(name, s, defaults, simHash).value;
    var hi := NatToString(simHash(Completed(name, rows[i], defaults, |rows|, i)));
    var hj := NatToString(simHash(Completed(name, rows[j], defaults, |rows|, j)));
    if sims[i].0 == sims[j].0 {
      SimIdInjective(name, hi, name, hj);
    }
  }

  // ------------------------------------------------------------ all definitions

  const Suffix: string := "_settings"

  predicate IsSettingsName(n: string)
  {
    |n| >= |Suffix| && n[|n| - |Suffix|..] == Suffix
  }

  /** The definition's name without its `_settings` suffix. */
  function BaseName(n: string): (b: string)
    requires IsSettingsName(n)
    ensures b + Suffix == n
  {
    n[..|n| - |Suffix|]
  }

  /** `settings_dicts[sim_id] = row` for each simulation in turn. */
  function Insert(m: map<string, Row>, sims: seq<(string, Row)>): map<string, Row>
  {
    if sims == [] then m
    else Insert(m, sims[..|sims| - 1])[sims[|sims| - 1].0 := sims[|sims| - 1].1]
  }

  /** `read_sim_defs` over the definitions in order; the first error stops it. */
  function SimDefs(defs: seq<(string, Settings)>, defaults: seq<(string, Value)>, simHash: Row -> nat)
    : Result<map<string, Row>, DefsError>
  {
    if defs == [] then Ok(map[])
    else
      match SimDefs(defs[..|defs| - 1], defaults, simHash)
      case Err(e) => Err(e)
      case Ok(m) =>
        var (n, s) := defs[|defs| - 1];
        if !IsSettingsName(n) then Ok(m)
        else
          match SimsOf(BaseName(n), s, defaults, simHash)
          case Err(e) => Err(e)
          case Ok(sims) => Ok(Insert(m, sims))
  }

  /** The ids of a sequence of simulations. */
  function Ids(sims: seq<(string, Row)>): set<string>
  {
    set i | 0 <= i < |sims| :: sims[i].0
  }

  lemma IdsAppend(sims: seq<(string, Row)>)
    requires sims != []
    ensures Ids(sims) == Ids(sims[..|sims| - 1]) + {sims[|sims| - 1].0}
  {
    var init := sims[..|sims| - 1];
    forall x | x in Ids(sims)
      ensures x in Ids(init) + {sims[|sims| - 1].0}
    {
      var i :| 0 <= i < |sims| && sims[i].0 == x;
      if i < |init| {
        assert init[i].0 == x;
      }
    }
    forall x | x in Ids(init)
      ensures x in Ids(sims)
    {
      var i :| 0 <= i < |init| && init[i].0 == x;
      assert sims[i].0 == x;
    }
  }

  /** Inserting adds exactly the ids of the simulations. */
  lemma {:induction false} InsertKeys(m: map<string, Row>, sims: seq<(string, Row)>)
    ensures Insert(m, sims).Keys == m.Keys + Ids(sims)
  {
    if sims != [] {
      InsertKeys(m, sims[..|sims| - 1]);
      IdsAppend(sims);
    }
  }

  /** The last simulation with a given id decides its row. */
  lemma {:induction false} InsertLast(m: map<string, Row>, sims: seq<(string, Row)>, i: nat)
    requires i < |sims| && forall i' :: i < i' < |sims| ==> sims[i'].0 != sims[i].0
    ensures sims[i].0 in Insert(m, sims) && Insert(m, sims)[sims[i].0] == sims[i].1
  {
    var init := sims[..|sims| - 1];
    if i < |init| {
      assert init[i] == sims[i];
      forall i' | i < i' < |init|
        ensures init[i'].0 != init[i].0
      {
        assert init[i'] == sims[i'];
      }
      InsertLast(m, init, i);
    }
  }

  /** An id of the map that no simulation carries keeps its row. */
  lemma {:induction false} InsertKeeps(m: map<string, Row>, sims: seq<(string, Row)>, k: string)
    requires k in m && forall i :: 0 <= i < |sims| ==> sims[i].0 != k
    ensures k in Insert(m, sims) && Insert(m, sims)[k] == m[k]
  {
    if sims != [] {
      var init := sims[..|sims| - 1];
      forall i | 0 <= i < |init|
        ensures init[i].0 != k
      {
        assert init[i] == sims[i];
      }
      InsertKeeps(m, init, k);
    }
  }

  /** Once a definition fails, later definitions do not change the outcome. */
  lemma {:induction false} SimDefsStopsAtError(defs: seq<(string, Settings)>, d: nat, defaults: seq<(string, Value)>, simHash: Row -> nat)
    requires d <= |defs| && SimDefs(defs[..d], defaults, simHash).Err?
    ensures SimDefs(defs, defaults, simHash) == SimDefs(defs[..d], defaults, simHash)
    decreases |defs|
  {
    if d < |defs| {
      var init := defs[..|defs| - 1];
      assert init[..d] == defs[..d];
      SimDefsStopsAtError(init, d, defaults, simHash);
    } else {
      assert defs[..d] == defs;
    }
  }

  /** The inner loop of `read_sim_defs`: stores each simulation of one definition under its id. */
  method InsertAll(m: map<string, Row>, sims: seq<(string, Row)>) returns (r: map<string, Row>)
    ensures r == Insert(m, sims)
  {
    r := m;
    var k := 0;
    while k < |sims|
      invariant 0 <= k <= |sims|
      invariant r == Insert(m, sims[..k])
    {
      assert sims[..k + 1][..k] == sims[..k];
      r := r[sims[k].0 := sims[k].1];
      k := k + 1;
    }
    assert sims[..k] == sims;
  }

  /** `read_sim_defs`: fills the dict of simulations definition by definition, row by row. */
  method ReadSimDefs(defs: seq<(string, Settings)>, defaults: seq<(string, Value)>, simHash: Row -> nat)
    returns (r: Result<map<string, Row>, DefsError>)
    ensures r == SimDefs(defs, defaults, simHash)
  {
    var settingsDicts: map<string, Row> := map[];
    var d := 0;
    while d < |defs|
      invariant 0 <= d <= |defs|
      invariant SimDefs(defs[..d], defaults, simHash) == Ok(settingsDicts)
    {
      assert defs[..d + 1][..d] == defs[..d];
      var (n, s) := defs[d];
      if IsSettingsName(n) {
        var sims := SimsOf(BaseName(n), s, defaults, simHash);
        if sims.Err? {
          SimDefsStopsAtError(defs, d + 1, defaults, simHash);
          return Err(sims.error);
        }
        settingsDicts := InsertAll(settingsDicts, sims.value);
      }
      d := d + 1;
    }
    assert defs[..d] == defs;
    r := Ok(settingsDicts);
  }
}
