/** Cleaning of the nested key/value data read from the recording's RData
    file: keys become snake case with `.` replaced by `_`, singleton lists are
    unwrapped, nested dictionaries are cleaned recursively and pandas data
    frames are converted to polars ones (src/actigraphy/io/metadata.py). */
module Metadata {
  import opened PyRuntime

  // ---------------------------------------------------------------------
  // Characters and strings
  // ---------------------------------------------------------------------

  /** The regex class `[A-Z]`. */
  predicate IsUpper(c: char) { 'A' <= c <= 'Z' }

  /** `str.lower()` on one character, for ASCII letters. */
  function Lower(c: char): (d: char)
    ensures !IsUpper(d)
    ensures IsUpper(c) ==> d as int == c as int + 32
    ensures !IsUpper(c) ==> d == c
  {
    if IsUpper(c) then (c as int + 32) as char else c
  }

  function LowerString(s: string): (r: string)
    ensures |r| == |s| && forall k :: 0 <= k < |s| ==> r[k] == Lower(s[k])
  {
    seq(|s|, k requires 0 <= k < |s| => Lower(s[k]))
  }

  /** `s[::-1]`. */
  function Reverse(s: string): (r: string)
    ensures |r| == |s| && forall k :: 0 <= k < |s| ==> r[k] == s[|s| - 1 - k]
  {
    seq(|s|, k requires 0 <= k < |s| => s[|s| - 1 - k])
  }

  predicate NoUpper(s: string) { forall k :: 0 <= k < |s| ==> !IsUpper(s[k]) }

  // ---------------------------------------------------------------------
  // _snakecase, as written: a regex substitution on the reversed string
  // ---------------------------------------------------------------------

  /** Python's `$` (without MULTILINE) holds at the end of the string and
      just before a newline that ends it. */
  predicate AtDollar(r: string, p: nat)
    requires p <= |r|
  {
    p == |r| || (p == |r| - 1 && r[p] == '\n')
  }

  /** The empty pattern `(?<=[A-Z])(?!$)(?!_)(?![A-Z])` matches at position `p`. */
  predicate MatchesAt(r: string, p: nat)
    requires p <= |r|
  {
    0 < p && IsUpper(r[p - 1]) && !AtDollar(r, p) && r[p] != '_' && !IsUpper(r[p])
  }

  /** `re.sub(pattern, "_", r)` from position `p` on: an `_` at every
      position where the pattern matches, the characters of `r` kept. */
  function SubFrom(r: string, p: nat): (res: string)
    requires p <= |r|
    ensures |res| >= |r| - p
    decreases |r| - p
  {
    (if MatchesAt(r, p) then "_" else "")
    + (if p == |r| then "" else [r[p]] + SubFrom(r, p + 1))
  }

  function RegexSub(r: string): (res: string)
    ensures |res| >= |r|
  {
    SubFrom(r, 0)
  }

  /** `_snakecase`: reverse, substitute, lower-case, reverse back. */
  function Snakecase(s: string): (r: string)
    ensures NoUpper(r) && |r| >= |s|
  {
    Reverse(LowerString(RegexSub(Reverse(s))))
  }

  // ---------------------------------------------------------------------
  // What _snakecase does, read forwards
  // ---------------------------------------------------------------------

  /** An `_` goes before `s[q]` when `s[q]` is an ASCII capital whose
      preceding character exists and is neither `_` nor a capital (and, an
      effect of `$`, is not a leading newline directly before it). */
  predicate UnderscoreBefore(s: string, q: nat)
    requires q < |s|
  {
    1 <= q && IsUpper(s[q]) && s[q - 1] != '_' && !IsUpper(s[q - 1]) && !(q == 1 && s[0] == '\n')
  }

  /** Reference definition: every character lower-cased, with an `_` in
      front of it where `UnderscoreBefore` says so. */
  function SnakeSpec(s: string): string
  {
    if s == [] then []
    else
      var u := if UnderscoreBefore(s, |s| - 1) then "_" else "";
      SnakeSpec(s[..|s| - 1]) + u + [Lower(s[|s| - 1])]
  }

  lemma {:induction false} SubFromShift(c: char, r: string, p: nat)
    requires 1 <= p <= |r|
    ensures SubFrom([c] + r, p + 1) == SubFrom(r, p)
    decreases |r| - p
  {
    var cr := [c] + r;
    assert MatchesAt(cr, p + 1) == MatchesAt(r, p) by {
      assert cr[p] == r[p - 1];
      if p < |r| {
        assert cr[p + 1] == r[p];
      }
    }
    if p < |r| {
      SubFromShift(c, r, p + 1);
      assert cr[p + 1] == r[p];
    }
  }

  /** Substituting in `[c] + r` adds `c` in front, then an `_` where the
      pattern matches between `c` and `r[0]`, then the substitution of `r`. */
  lemma RegexSubCons(c: char, r: string)
    ensures RegexSub([c] + r) == [c] + (if MatchesAt([c] + r, 1) then "_" else "") + RegexSub(r)
  {
    var cr := [c] + r;
    assert !MatchesAt(cr, 0);
    if r == [] {
      assert SubFrom(cr, 1) == "";
    } else {
      SubFromShift(c, r, 1);
      var u := if MatchesAt(cr, 1) then "_" else "";
      assert !MatchesAt(r, 0);
      assert cr[1] == r[0];
      assert SubFrom(r, 0) == [r[0]] + SubFrom(r, 1);
      assert SubFrom(cr, 1) == u + ([r[0]] + SubFrom(r, 1));
      assert SubFrom(cr, 0) == [c] + SubFrom(cr, 1);
    }
  }

  lemma ReverseAppend(a: string, b: string)
    ensures Reverse(a + b) == Reverse(b) + Reverse(a)
  {
  }

  lemma LowerAppend(a: string, b: string)
    ensures LowerString(a + b) == LowerString(a) + LowerString(b)
  {
  }

  /** Appending a character to the input of `_snakecase` appends its lower
      case to the output, after an `_` where `UnderscoreBefore` says so. */
  lemma SnakecaseSnoc(init: string, c: char)
    ensures Snakecase(init + [c]) ==
      Snakecase(init) + (if UnderscoreBefore(init + [c], |init|) then "_" else "") + [Lower(c)]
  {
    var s := init + [c];
    var n := |s|;
    var ri := Reverse(init);
    assert Reverse(s) == [c] + ri by { ReverseAppend(init, [c]); }
    RegexSubCons(c, ri);
    var u := if MatchesAt([c] + ri, 1) then "_" else "";
    assert MatchesAt([c] + ri, 1) == UnderscoreBefore(s, n - 1) by {
      if n >= 2 {
        assert ([c] + ri)[1] == s[n - 2];
      }
    }
    var lc, lu, lr := LowerString([c]), LowerString(u), LowerString(RegexSub(ri));
    assert LowerString([c] + u + RegexSub(ri)) == lc + lu + lr by {
      LowerAppend([c] + u, RegexSub(ri));
      LowerAppend([c], u);
    }
    assert Reverse(lc + lu + lr) == Reverse(lr) + Reverse(lu) + Reverse(lc) by {
      ReverseAppend(lc + lu, lr);
      ReverseAppend(lc, lu);
    }
    assert Reverse(lu) == u;
    assert Reverse(lc) == [Lower(c)];
  }

  /** The regex formulation and the forward reading agree on every string. */
  lemma {:induction false} SnakecaseIsSnakeSpec(s: string)
    ensures Snakecase(s) == SnakeSpec(s)
    decreases |s|
  {
    if s != [] {
      var n := |s|;
      var init, c := s[..n - 1], s[n - 1];
      assert s == init + [c];
      SnakecaseIsSnakeSpec(init);
      SnakecaseSnoc(init, c);
    }
  }

  // ---------------------------------------------------------------------
  // Properties of _snakecase
  // ---------------------------------------------------------------------

  lemma {:induction false} SnakeSpecNoUpper(s: string)
    ensures NoUpper(SnakeSpec(s))
    decreases |s|
  {
    if s != [] {
      SnakeSpecNoUpper(s[..|s| - 1]);
    }
  }

  /** The insertion points of `s`. */
  function InsertionPoints(s: string): set<nat>
  {
    set q: nat | q < |s| && UnderscoreBefore(s, q)
  }

  /** Extending a string by one character adds at most its last position
      to the insertion points. */
  lemma InsertionPointsSnoc(s: string)
    requires s != []
    ensures |s| - 1 !in InsertionPoints(s[..|s| - 1])
    ensures InsertionPoints(s) == InsertionPoints(s[..|s| - 1]) +
      (if UnderscoreBefore(s, |s| - 1) then {|s| - 1} else {})
  {
    var init := s[..|s| - 1];
    forall q: nat | q < |s| - 1
      ensures UnderscoreBefore(s, q) == UnderscoreBefore(init, q)
    {
      if q >= 1 {
        assert s[q] == init[q] && s[q - 1] == init[q - 1];
      }
    }
  }

  lemma {:induction false} SnakeSpecLength(s: string)
    ensures |SnakeSpec(s)| == |s| + |InsertionPoints(s)|
    decreases |s|
  {
    if s != [] {
      SnakeSpecLength(s[..|s| - 1]);
      InsertionPointsSnoc(s);
    }
  }

  lemma {:induction false} SnakeSpecKeepsLowerCase(s: string)
    requires NoUpper(s)
    ensures SnakeSpec(s) == s
    decreases |s|
  {
    if s != [] {
      var n := |s|;
      SnakeSpecKeepsLowerCase(s[..n - 1]);
      assert s == s[..n - 1] + [s[n - 1]];
    }
  }

  /** The output of `_snakecase` has no capitals, is the input plus one `_`
      per insertion point, and a string without capitals is left as it is. */
  lemma SnakecaseProperties(s: string)
    ensures NoUpper(Snakecase(s))
    ensures |Snakecase(s)| == |s| + |InsertionPoints(s)|
    ensures NoUpper(s) ==> Snakecase(s) == s
  {
    SnakecaseIsSnakeSpec(s);
    SnakeSpecNoUpper(s);
    SnakeSpecLength(s);
    if NoUpper(s) {
      SnakeSpecKeepsLowerCase(s);
    }
  }

  /** `_snakecase` is idempotent. */
  lemma SnakecaseIdempotent(s: string)
    ensures Snakecase(Snakecase(s)) == Snakecase(s)
  {
    SnakecaseProperties(s);
    SnakecaseProperties(Snakecase(s));
  }

  /** Consecutive capitals get no `_` between them. */
  lemma SnakecaseAllCapitals()
    ensures Snakecase("ENMO") == "enmo"
  {
    SnakecaseIsSnakeSpec("ENMO");
    assert SnakeSpec("E") == "e" by { assert "E"[..0] == ""; }
    assert SnakeSpec("EN") == "en" by { assert "EN"[..1] == "E"; }
    assert SnakeSpec("ENM") == "enm" by { assert "ENM"[..2] == "EN"; }
    assert SnakeSpec("ENMO") == "enmo" by { assert "ENMO"[..3] == "ENM"; }
  }

  /** A capital after a lower-case letter gets an `_` in front. */
  lemma SnakecaseCamelCase()
    ensures Snakecase("nW") == "n_w"
  {
    SnakecaseIsSnakeSpec("nW");
    assert SnakeSpec("n") == "n" by { assert "n"[..0] == ""; }
    assert SnakeSpec("nW") == "n_w" by { assert "nW"[..1] == "n"; }
  }

  // ---------------------------------------------------------------------
  // _clean_key
  // ---------------------------------------------------------------------

  /** `key.replace(".", "_")`. */
  function ReplaceDots(s: string): (r: string)
    ensures |r| == |s|
    ensures forall k :: 0 <= k < |s| ==> r[k] == (if s[k] == '.' then '_' else s[k])
  {
    seq(|s|, k requires 0 <= k < |s| => if s[k] == '.' then '_' else s[k])
  }

  /** `_clean_key`. */
  function CleanKey(key: string): (r: string)
    ensures NoUpper(r) && |r| >= |key|
  {
    Snakecase(ReplaceDots(key))
  }

  lemma {:induction false} SnakeSpecNoDot(s: string)
    requires forall k :: 0 <= k < |s| ==> s[k] != '.'
    ensures forall k :: 0 <= k < |SnakeSpec(s)| ==> SnakeSpec(s)[k] != '.'
    decreases |s|
  {
    if s != [] {
      SnakeSpecNoDot(s[..|s| - 1]);
    }
  }

  /** A cleaned key has neither `.` nor capitals, and cleaning is idempotent. */
  lemma CleanKeyProperties(key: string)
    ensures forall k :: 0 <= k < |CleanKey(key)| ==> CleanKey(key)[k] != '.'
    ensures NoUpper(CleanKey(key))
    ensures CleanKey(CleanKey(key)) == CleanKey(key)
  {
    var s := ReplaceDots(key);
    SnakecaseIsSnakeSpec(s);
    SnakeSpecNoDot(s);
    SnakecaseProperties(s);
    var c := CleanKey(key);
    assert ReplaceDots(c) == c;
    SnakecaseProperties(c);
  }

  /** A `.` before a capital yields a single `_`: the underscore the dot
      becomes stops the insertion before the capital. */
  lemma CleanKeyExample()
    ensures CleanKey("a.B") == "a_b"
  {
    assert ReplaceDots("a.B") == "a_B";
    SnakecaseIsSnakeSpec("a_B");
    assert SnakeSpec("a") == "a" by { assert "a"[..0] == ""; }
    assert SnakeSpec("a_") == "a_" by { assert "a_"[..1] == "a"; }
    assert SnakeSpec("a_B") == "a_b" by { assert "a_B"[..2] == "a_"; }
  }

  // ---------------------------------------------------------------------
  // Values and their cleaning
  // ---------------------------------------------------------------------

  datatype FrameLibrary = Pandas | Polars

  /** A value of the converted RData tree. */
  datatype Value =
    | Leaf(atom: string)                     // any scalar or array, opaque here
    | List(items: seq<Value>)                // a Python list
    | Dict(entries: seq<(string, Value)>)    // a Python dict, in insertion order
    | Frame(library: FrameLibrary, table: nat)  // a data frame, its contents opaque

  /** A termination measure that counts the dictionary nesting. */
  function Size(v: Value): (n: nat)
    ensures n >= 1
  {
    match v
    case Dict(entries) => 1 + Sum(seq(|entries|, i requires 0 <= i < |entries| => Size(entries[i].1)))
    case _ => 1
  }

  function Sum(xs: seq<nat>): nat
  {
    if xs == [] then 0 else Sum(xs[..|xs| - 1]) + xs[|xs| - 1]
  }

  /** The sizes of the values of a dictionary, added up. */
  function EntriesSize(entries: seq<(string, Value)>): nat
  {
    Sum(seq(|entries|, i requires 0 <= i < |entries| => Size(entries[i].1)))
  }

  lemma EntriesSizeSplit(entries: seq<(string, Value)>)
    requires entries != []
    ensures EntriesSize(entries) ==
      EntriesSize(entries[..|entries| - 1]) + Size(entries[|entries| - 1].1)
  {
    var n := |entries|;
    var sizes := seq(n, i requires 0 <= i < n => Size(entries[i].1));
    assert sizes[..n - 1] == seq(n - 1, i requires 0 <= i < n - 1 => Size(entries[..n - 1][i].1));
  }

  lemma {:induction false} EntrySizeBound(entries: seq<(string, Value)>, i: nat)
    requires i < |entries|
    ensures Size(entries[i].1) <= EntriesSize(entries)
    decreases |entries|
  {
    var n := |entries|;
    EntriesSizeSplit(entries);
    if i < n - 1 {
      EntrySizeBound(entries[..n - 1], i);
    }
  }

  /** The keys of a dictionary, in order. */
  function Keys(d: seq<(string, Value)>): (ks: seq<string>)
    ensures |ks| == |d| && forall i :: 0 <= i < |d| ==> ks[i] == d[i].0
  {
    seq(|d|, i requires 0 <= i < |d| => d[i].0)
  }

  /** No key occurs twice: the entries form a Python dict. */
  predicate UniqueKeys(d: seq<(string, Value)>)
  {
    forall i, j :: 0 <= i < j < |d| ==> d[i].0 != d[j].0
  }

  /** The first position of `key` among the keys. */
  function KeyIndex(d: seq<(string, Value)>, key: string): (i: nat)
    requires key in Keys(d)
    ensures i < |d| && d[i].0 == key
    ensures forall j :: 0 <= j < i ==> d[j].0 != key
  {
    if d[0].0 == key then 0
    else
      assert key in Keys(d[1..]) by {
        var j :| 0 <= j < |d| && Keys(d)[j] == key;
        assert Keys(d[1..])[j - 1] == key;
      }
      1 + KeyIndex(d[1..], key)
  }

  /** `d[key]`, or None when `key` is absent. */
  function Lookup(d: seq<(string, Value)>, key: string): (r: Option<Value>)
    ensures r.None? <==> key !in Keys(d)
    ensures r.Some? ==> (key, r.value) in d
  {
    if key in Keys(d) then Some(d[KeyIndex(d, key)].1) else None
  }

  /** `d[key] = value`: an existing key keeps its place and takes the new
      value, a new key is added at the end. */
  function DictSet(d: seq<(string, Value)>, key: string, value: Value): (r: seq<(string, Value)>)
    ensures key in Keys(d) ==> Keys(r) == Keys(d)
    ensures key !in Keys(d) ==> Keys(r) == Keys(d) + [key]
    ensures forall e :: e in r ==> e in d || e == (key, value)
  {
    if key in Keys(d) then d[KeyIndex(d, key) := (key, value)] else d + [(key, value)]
  }

  /** What `d[key] = value` does to the dictionary: the keys stay unique,
      `key` now maps to `value`, and every other key keeps its value. */
  lemma DictSetLookup(d: seq<(string, Value)>, key: string, value: Value)
    ensures UniqueKeys(d) ==> UniqueKeys(DictSet(d, key, value))
    ensures Lookup(DictSet(d, key, value), key) == Some(value)
    ensures forall k :: k != key ==> Lookup(DictSet(d, key, value), k) == Lookup(d, k)
  {
    var r := DictSet(d, key, value);
    if key in Keys(d) {
      var i := KeyIndex(d, key);
      assert forall j :: 0 <= j < |d| ==> r[j].0 == d[j].0;
      assert KeyIndex(r, key) == i;
      forall k | k != key && k in Keys(d)
        ensures Lookup(r, k) == Lookup(d, k)
      {
        assert KeyIndex(r, k) == KeyIndex(d, k);
      }
    } else {
      assert forall j :: 0 <= j < |d| ==> r[j] == d[j];
      assert KeyIndex(r, key) == |d|;
      forall k | k != key && k in Keys(d)
        ensures Lookup(r, k) == Lookup(d, k)
      {
        assert KeyIndex(r, k) == KeyIndex(d, k);
      }
    }
  }

  /** `_clean_value`: a list of one element becomes that element, anything
      else is returned unchanged. */
  function CleanValue(v: Value): (r: Value)
    ensures v.List? && |v.items| == 1 ==> r == v.items[0]
    ensures !(v.List? && |v.items| == 1) ==> r == v
  {
    if v.List? && |v.items| == 1 then v.items[0] else v
  }

  /** `pl.from_pandas`: the same table, as a polars frame. */
  function FromPandas(v: Value): (r: Value)
    requires v.Frame?
    ensures r.Frame? && r.library == Polars && r.table == v.table
  {
    Frame(Polars, v.table)
  }

  /** What one value of the dictionary becomes: the type tests look at the
      value as it was before `_clean_value`, so a dictionary or a pandas frame
      wrapped in a singleton list is unwrapped but not cleaned or converted. */
  function CleanEntryValue(v: Value): (r: Value)
    ensures v.Dict? ==> r.Dict? && UniqueKeys(r.entries) && |r.entries| <= |v.entries|
    ensures v.Frame? && v.library == Pandas ==> r == Frame(Polars, v.table)
    ensures !v.Dict? && !(v.Frame? && v.library == Pandas) ==> r == CleanValue(v)
    decreases Size(v), 0
  {
    var cleaned := CleanValue(v);
    if v.Dict? then Dict(CleanEntries(v.entries))
    else if v.Frame? && v.library == Pandas then FromPandas(cleaned)
    else cleaned
  }

  /** Reference definition of `_recursive_clean_rdata`: the entries are
      stored in order into an initially empty dictionary under their cleaned
      keys. */
  function CleanEntries(entries: seq<(string, Value)>): (r: seq<(string, Value)>)
    ensures UniqueKeys(r) && |r| <= |entries|
    decreases EntriesSize(entries), 1
  {
    if entries == [] then []
    else
      var n := |entries|;
      EntriesSizeSplit(entries);
      var d := CleanEntries(entries[..n - 1]);
      var key, value := CleanKey(entries[n - 1].0), CleanEntryValue(entries[n - 1].1);
      DictSetLookup(d, key, value);
      DictSet(d, key, value)
  }

  /** `entries[i]` is the last entry whose key cleans to the same name. */
  ghost predicate LastWithCleanKey(entries: seq<(string, Value)>, i: nat)
    requires i < |entries|
  {
    forall j :: i < j < |entries| ==> CleanKey(entries[j].0) != CleanKey(entries[i].0)
  }

  /** Some entry's key cleans to `k`. */
  ghost predicate HasKeyCleaningTo(entries: seq<(string, Value)>, k: string)
  {
    exists i :: 0 <= i < |entries| && CleanKey(entries[i].0) == k
  }

  /** The cleaned dictionary holds exactly the cleaned keys of the input,
      each once. */
  lemma {:induction false} CleanEntriesKeys(entries: seq<(string, Value)>)
    ensures UniqueKeys(CleanEntries(entries))
    ensures forall k :: k in Keys(CleanEntries(entries)) <==> HasKeyCleaningTo(entries, k)
    decreases |entries|
  {
    if entries != [] {
      var n := |entries|;
      var init := entries[..n - 1];
      CleanEntriesKeys(init);
      var key, value := CleanKey(entries[n - 1].0), CleanEntryValue(entries[n - 1].1);
      var d := CleanEntries(init);
      assert CleanEntries(entries) == DictSet(d, key, value);
      DictSetLookup(d, key, value);
      forall k ensures k in Keys(CleanEntries(entries)) <==> HasKeyCleaningTo(entries, k)
      {
        if HasKeyCleaningTo(init, k) {
          var i :| 0 <= i < n - 1 && CleanKey(init[i].0) == k;
          assert entries[i] == init[i];
        }
        if HasKeyCleaningTo(entries, k) {
          var i :| 0 <= i < n && CleanKey(entries[i].0) == k;
          if i < n - 1 {
            assert init[i] == entries[i];
          }
        }
      }
    }
  }

  /** Under each cleaned key is the cleaned value of the last input entry
      whose key cleans to it: later entries overwrite earlier ones. */
  lemma {:induction false} CleanEntriesLookupAt(entries: seq<(string, Value)>, i: nat)
    requires i < |entries| && LastWithCleanKey(entries, i)
    ensures Lookup(CleanEntries(entries), CleanKey(entries[i].0)) == Some(CleanEntryValue(entries[i].1))
    decreases |entries|
  {
    var n := |entries|;
    var init := entries[..n - 1];
    var key, value := CleanKey(entries[n - 1].0), CleanEntryValue(entries[n - 1].1);
    var d := CleanEntries(init);
    assert CleanEntries(entries) == DictSet(d, key, value);
    DictSetLookup(d, key, value);
    if i < n - 1 {
      var k := CleanKey(entries[i].0);
      assert k != key;
      assert init[i] == entries[i];
      assert LastWithCleanKey(init, i) by {
        forall j | i < j < n - 1
          ensures CleanKey(init[j].0) != k
        {
          assert init[j] == entries[j];
        }
      }
      CleanEntriesLookupAt(init, i);
    }
  }

  lemma CleanEntriesLookup(entries: seq<(string, Value)>)
    ensures forall i :: 0 <= i < |entries| && LastWithCleanKey(entries, i) ==>
      Lookup(CleanEntries(entries), CleanKey(entries[i].0)) == Some(CleanEntryValue(entries[i].1))
  {
    forall i | 0 <= i < |entries| && LastWithCleanKey(entries, i)
      ensures Lookup(CleanEntries(entries), CleanKey(entries[i].0)) == Some(CleanEntryValue(entries[i].1))
    {
      CleanEntriesLookupAt(entries, i);
    }
  }

  /** `_recursive_clean_rdata`: fills a fresh dictionary, entry by entry,
      with the cleaned key and the cleaned (for dictionaries: recursively
      cleaned, for pandas frames: converted) value. */
  method RecursiveCleanRdata(rData: seq<(string, Value)>) returns (cleaned: seq<(string, Value)>)
    ensures cleaned == CleanEntries(rData)
    decreases EntriesSize(rData)
  {
    cleaned := [];
    for i := 0 to |rData|
      invariant cleaned == CleanEntries(rData[..i])
    {
      var (key, value) := rData[i];
      var cleanKey := CleanKey(key);
      var cleanValue := CleanValue(value);
      if value.Dict? {
        EntrySizeBound(rData, i);
        var inner := RecursiveCleanRdata(cleanValue.entries);
        cleanValue := Dict(inner);
      } else if value.Frame? && value.library == Pandas {
        cleanValue := FromPandas(cleanValue);
      }
      assert rData[..i + 1][..i] == rData[..i];
      cleaned := DictSet(cleaned, cleanKey, cleanValue);
    }
    assert rData[..|rData|] == rData;
  }

  /** A dictionary wrapped in a one-element list comes out unwrapped but with
      its keys as they were, so a capital or a dot can survive in it. */
  lemma WrappedDictNotCleaned(entries: seq<(string, Value)>)
    ensures CleanEntryValue(List([Dict(entries)])) == Dict(entries)
    ensures CleanEntries([("x", List([Dict([("A.b", Leaf("1"))])]))]) ==
      [("x", Dict([("A.b", Leaf("1"))]))]
  {
    var e := [("x", List([Dict([("A.b", Leaf("1"))])]))];
    var v := Dict([("A.b", Leaf("1"))]);
    assert CleanKey("x") == "x" by {
      SnakecaseProperties("x");
    }
    assert CleanEntryValue(e[0].1) == v;
    assert e[..0] == [] && CleanEntries(e[..0]) == [];
    assert DictSet([], "x", v) == [("x", v)];
  }

  // ---------------------------------------------------------------------
  // Keys are clean at every depth, except under a wrapped dictionary
  // ---------------------------------------------------------------------

  /** A name as `_clean_key` produces it: no dots and no capitals. */
  predicate CleanName(k: string)
  {
    NoUpper(k) && forall j :: 0 <= j < |k| ==> k[j] != '.'
  }

  /** Every key of the dictionary, and of each dictionary nested in it
      through dictionary values, is a clean name. */
  predicate DeepCleanValue(v: Value)
    decreases Size(v), 0
  {
    v.Dict? ==> DeepCleanEntries(v.entries)
  }

  predicate DeepCleanEntries(entries: seq<(string, Value)>)
    decreases EntriesSize(entries), 1
  {
    forall i :: 0 <= i < |entries| ==>
      CleanName(entries[i].0) && (EntrySizeBound(entries, i); DeepCleanValue(entries[i].1))
  }

  /** No dictionary reachable through dictionary values is wrapped in a
      list of one element. */
  predicate NoWrappedDictValue(v: Value)
    decreases Size(v), 0
  {
    && !(v.List? && |v.items| == 1 && v.items[0].Dict?)
    && (v.Dict? ==> NoWrappedDictEntries(v.entries))
  }

  predicate NoWrappedDictEntries(entries: seq<(string, Value)>)
    decreases EntriesSize(entries), 1
  {
    forall i :: 0 <= i < |entries| ==> (EntrySizeBound(entries, i); NoWrappedDictValue(entries[i].1))
  }

  /** When no dictionary hides in a one-element list, the cleaning reaches
      every nested dictionary: all keys at every depth come out clean. */
  lemma {:induction false} CleanEntriesDeep(entries: seq<(string, Value)>)
    requires NoWrappedDictEntries(entries)
    ensures DeepCleanEntries(CleanEntries(entries))
    decreases EntriesSize(entries), 1
  {
    if entries != [] {
      var n := |entries|;
      var init := entries[..n - 1];
      EntriesSizeSplit(entries);
      assert NoWrappedDictEntries(init) by {
        forall i | 0 <= i < |init|
          ensures NoWrappedDictValue(init[i].1)
        {
          assert init[i] == entries[i];
        }
      }
      CleanEntriesDeep(init);
      var key := CleanKey(entries[n - 1].0);
      var value := CleanEntryValue(entries[n - 1].1);
      CleanKeyProperties(entries[n - 1].0);
      CleanEntryValueDeep(entries[n - 1].1);
      var d := CleanEntries(init);
      var r := CleanEntries(entries);
      assert r == DictSet(d, key, value);
      forall i | 0 <= i < |r|
        ensures CleanName(r[i].0) && DeepCleanValue(r[i].1)
      {
        assert r[i] in r;
        if r[i] in d {
          var j :| 0 <= j < |d| && d[j] == r[i];
        }
      }
    }
  }

  lemma {:induction false} CleanEntryValueDeep(v: Value)
    requires NoWrappedDictValue(v)
    ensures DeepCleanValue(CleanEntryValue(v))
    decreases Size(v), 0
  {
    if v.Dict? {
      CleanEntriesDeep(v.entries);
    }
  }
}
