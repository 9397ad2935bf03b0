/** The text of the MANIFEST file: one table name a line, oldest first. */
module ManifestText {
  import opened Tables
  import opened Lines
  import opened Compaction

  const MAX_INT := 0x7fff_ffff_ffff_ffff
  const MIN_INT := -0x8000_0000_0000_0000

  /** Addition of one to a Go `int` of 64 bits. */
  function Increment(n: int): int {
    if n == MAX_INT then MIN_INT else n + 1
  }

  function Max(a: int, b: int): int {
    if a >= b then a else b
  }

  // ----- decimal numbers -----

  function Digit(d: nat): char
    requires d < 10
  {
    '0' + d as char
  }

  predicate IsDigit(c: char) {
    '0' <= c <= '9'
  }

  function Decimal(n: nat): string {
    if n < 10 then [Digit(n)] else Decimal(n / 10) + [Digit(n % 10)]
  }

  function Digits(s: string): nat
    requires forall c :: c in s ==> IsDigit(c)
  {
    if s == [] then 0
    else
      assert IsDigit(s[|s| - 1]);
      10 * Digits(s[..|s| - 1]) + (s[|s| - 1] as int - '0' as int)
  }

  /** `strconv.Atoi`: an optional sign and decimal digits, in range. */
  function Atoi(s: string): Option<int> {
    var digits := if s != [] && (s[0] == '-' || s[0] == '+') then s[1..] else s;
    if digits == [] || exists c :: c in digits && !IsDigit(c) then None
    else
      var n := if s[0] == '-' then -(Digits(digits) as int) else Digits(digits) as int;
      if MIN_INT <= n <= MAX_INT then Some(n) else None
  }

  lemma {:induction false} DecimalDigits(n: nat)
    ensures Decimal(n) != []
    ensures forall c :: c in Decimal(n) ==> IsDigit(c)
    ensures Digits(Decimal(n)) == n
  {
    if n >= 10 {
      DecimalDigits(n / 10);
      var s := Decimal(n);
      assert s[..|s| - 1] == Decimal(n / 10);
    } else {
      var s := Decimal(n);
      assert s[..|s| - 1] == [];
    }
  }

  lemma AtoiDecimal(n: nat)
    ensures Atoi(Decimal(n)) == if n <= MAX_INT then Some(n) else None
  {
    DecimalDigits(n);
    assert IsDigit(Decimal(n)[0]);
  }

  lemma DecimalStep(m: nat, c: char)
    requires IsDigit(c)
    ensures Decimal(10 * m + (c as int - '0' as int)) == if m == 0 then [c] else Decimal(m) + [c]
  {
    var v := c as int - '0' as int;
    assert (10 * m + v) / 10 == m && (10 * m + v) % 10 == v;
    assert Digit(v) == c;
  }

  predicate Numeral(s: string) {
    s != "" && forall c :: c in s ==> IsDigit(c)
  }

  /** Digits that stand for `n` are its decimal digits behind zeros. */
  lemma {:induction false} DigitsAreDecimal(s: string) returns (zeros: string)
    requires Numeral(s)
    ensures s == zeros + Decimal(Digits(s)) && forall c :: c in zeros ==> c == '0'
  {
    hide Decimal;
    var p, c := s[..|s| - 1], s[|s| - 1];
    assert s == p + [c] && IsDigit(c);
    DecimalStep(Digits(p), c);
    zeros := "";
    if p != "" {
      zeros := DigitsAreDecimal(p);
      if Digits(p) == 0 {
        DecimalStep(0, '0');
        zeros := zeros + "0";
      }
    }
  }

  /** `Atoi` on any text: it takes digits with or without a sign, which it
      heeds, in the range of an `int`, and nothing else. */
  lemma AtoiAccepts(s: string, n: int)
    ensures Atoi(s) == Some(n) <==>
              && MIN_INT <= n <= MAX_INT
              && exists d :: Numeral(d) && ((s in {d, "+" + d} && n == Digits(d)) ||
                                            (s == "-" + d && n == -(Digits(d) as int)))
  {
    var digits := if s != [] && (s[0] == '-' || s[0] == '+') then s[1..] else s;
    if Atoi(s) == Some(n) {
      assert s == [s[0]] + s[1..];
      assert Numeral(digits) && (s in {digits, "+" + digits} || s == "-" + digits);
    }
    forall d | Numeral(d) && s in {d, "+" + d, "-" + d} ensures digits == d {
      assert IsDigit(d[0]);
    }
  }

  // ----- trimming -----

  /** Go's `unicode.IsSpace`. */
  predicate IsSpace(c: char) {
    || '\t' <= c <= '\r' || c == ' ' || c == '\U{85}' || c == '\U{A0}' || c == '\U{1680}'
    || '\U{2000}' <= c <= '\U{200A}' || c == '\U{2028}' || c == '\U{2029}' || c == '\U{202F}'
    || c == '\U{205F}' || c == '\U{3000}'
  }

  /** ... one by one. */
  lemma SpacesAre(c: char)
    ensures IsSpace(c) <==>
              || c in "\t\n\U{B}\U{C}\r \U{85}\U{A0}\U{1680}\U{2028}\U{2029}\U{202F}\U{205F}\U{3000}"
              || c in "\U{2000}\U{2001}\U{2002}\U{2003}\U{2004}\U{2005}\U{2006}\U{2007}\U{2008}\U{2009}\U{200A}"
  {}

  function TrimSpace(s: string): string
    decreases |s|
  {
    if s != [] && IsSpace(s[0]) then TrimSpace(s[1..])
    else if s != [] && IsSpace(s[|s| - 1]) then TrimSpace(s[..|s| - 1])
    else s
  }

  /** What is trimmed is all spaces, and all the spaces at either end. */
  lemma {:induction false} TrimSpaceMeans(s: string) returns (a: string, b: string)
    ensures s == a + TrimSpace(s) + b && forall c :: c in a + b ==> IsSpace(c)
    ensures var t := TrimSpace(s); t != "" ==> !IsSpace(t[0]) && !IsSpace(t[|t| - 1])
    decreases |s|
  {
    hide IsSpace;
    a, b := "", "";
    if s != [] && IsSpace(s[0]) {
      assert s == [s[0]] + s[1..];
      a, b := TrimSpaceMeans(s[1..]);
      a := [s[0]] + a;
    } else if s != [] && IsSpace(s[|s| - 1]) {
      assert s == s[..|s| - 1] + [s[|s| - 1]];
      a, b := TrimSpaceMeans(s[..|s| - 1]);
      b := b + [s[|s| - 1]];
    }
  }

  function TrimPrefix(s: string, p: string): string {
    if p <= s then s[|p|..] else s
  }

  function TrimSuffix(s: string, p: string): string {
    if |p| <= |s| && s[|s| - |p|..] == p then s[..|s| - |p|] else s
  }

  // ----- names and the file -----

  /** The name of table `id`. */
  function Name(id: nat): string {
    "sst-" + Decimal(id) + ".json"
  }

  function Names(ids: seq<nat>): seq<string> {
    seq(|ids|, i requires 0 <= i < |ids| => Name(ids[i]))
  }

  /** The id in a line of the file, if there is one. */
  function IdOf(line: string): Option<int> {
    Atoi(TrimSuffix(TrimPrefix(TrimSpace(line), "sst-"), ".json"))
  }

  /** What is parsed as the id of a line: spaces at either end, one `sst-` in
      front and one `.json` behind are dropped if they are there. */
  lemma IdOfMeans(line: string) returns (a: string, b: string, t: string, u: string, d: string)
    ensures line == a + t + b && (forall c :: c in a + b ==> IsSpace(c))
    ensures t != "" ==> !IsSpace(t[0]) && !IsSpace(t[|t| - 1])
    ensures t == "sst-" + u || (t == u && !("sst-" <= t))
    ensures u == d + ".json" || (u == d && !(|u| >= 5 && u[|u| - 5..] == ".json"))
    ensures TrimSpace(line) == t && IdOf(line) == Atoi(d)
  {
    a, b := TrimSpaceMeans(line);
    t := TrimSpace(line);
    u := TrimPrefix(t, "sst-");
    d := TrimSuffix(u, ".json");
  }

  /** What `save` writes for a list that is newest first. */
  function Render(names: seq<string>): string {
    Join(Reverse(names))
  }

  /** `writeTemporaryManifest`: the loop runs from the end of the list. */
  method WriteNames(names: seq<string>) returns (text: string)
    ensures text == Render(names)
  {
    text := "";
    var i := |names| - 1;
    while i >= 0
      invariant -1 <= i < |names|
      invariant text == Join(Reverse(names[i + 1..]))
    {
      ReverseCons(names[i], names[i + 1..]);
      assert [names[i]] + names[i + 1..] == names[i..];
      JoinAppend(Reverse(names[i + 1..]), [names[i]]);
      assert Join([names[i]]) == names[i] + "\n" + Join([]);
      text := text + names[i] + "\n";
      i := i - 1;
    }
    assert names[0..] == names;
  }

  lemma ReverseCons<T>(x: T, s: seq<T>)
    ensures Reverse([x] + s) == Reverse(s) + [x]
  {
    ReverseTwice(s);
    forall k | 0 <= k < |s| ensures Reverse(s)[k] == s[|s| - 1 - k] { ReverseAt(s, k); }
    ReversedSeq([x] + s, Reverse(s) + [x]);
  }

  datatype Parsed = BadManifest | Manifest(names: seq<string>, nextId: int)

  /** The names read so far, in the order of the file, and the greatest id. */
  datatype Progress = Stuck | Progress(names: seq<string>, maxId: int)

  function Read(lines: seq<string>): Progress {
    if lines == [] then Progress([], 0)
    else
      var n := |lines| - 1;
      match Read(lines[..n])
      case Stuck => Stuck
      case Progress(names, maxId) =>
        if IdOf(lines[n]).None? then Stuck
        else Progress(names + [TrimSpace(lines[n])], Max(maxId, IdOf(lines[n]).value))
  }

  function Parse(text: string): Parsed {
    match Read(Scan(text))
    case Stuck => BadManifest
    case Progress(names, maxId) => Manifest(Reverse(names), Increment(maxId))
  }

  /** The parse of any text: it fails exactly if some line has no id; else the
      names are the trimmed lines, last line first, and the next id is one more
      than the greatest id, or than zero. */
  lemma ParseMeans(text: string)
    ensures var lines := Scan(text);
      match Parse(text)
      case BadManifest => HasBadLine(lines)
      case Manifest(names, nextId) =>
        && |names| == |lines|
        && (forall i :: 0 <= i < |lines| ==> names[i] == TrimSpace(lines[|lines| - 1 - i]))
        && exists max :: IsMaxId(lines, max) && nextId == if max == MAX_INT then MIN_INT else max + 1
  {
    hide IdOf, TrimSpace, Scan, Reverse, Read, IsMaxId, HasBadLine;
    var lines := Scan(text);
    ReadMeans(lines);
    if Read(lines).Progress? {
      assert IsMaxId(lines, Read(lines).maxId);
      var names := Read(lines).names;
      forall i | 0 <= i < |names| ensures |Reverse(names)| == |names| && Reverse(names)[i] == names[|names| - 1 - i] {
        ReverseAt(names, i);
      }
      ReverseTwice(names);
    }
  }

  ghost predicate HasBadLine(lines: seq<string>) {
    exists i :: 0 <= i < |lines| && IdOf(lines[i]) == None
  }

  ghost predicate IsMaxId(lines: seq<string>, max: int) {
    && max >= 0 && (max == 0 || exists i :: 0 <= i < |lines| && IdOf(lines[i]) == Some(max))
    && forall i :: 0 <= i < |lines| ==> IdOf(lines[i]).Some? && IdOf(lines[i]).value <= max
  }

  lemma {:induction false} ReadMeans(lines: seq<string>)
    ensures match Read(lines)
      case Stuck => HasBadLine(lines)
      case Progress(names, max) =>
        && |names| == |lines| && (forall i :: 0 <= i < |lines| ==> names[i] == TrimSpace(lines[i]))
        && IsMaxId(lines, max)
  {
    hide IdOf, TrimSpace;
    if lines != [] {
      var n := |lines| - 1;
      var p := lines[..n];
      ReadMeans(p);
      if Read(p) == Stuck {
        var i :| 0 <= i < n && IdOf(p[i]) == None;
        assert IdOf(lines[i]) == None;
      } else if IdOf(lines[n]).Some? {
        assert Read(lines).maxId != 0 && Read(lines).maxId == Read(p).maxId ==>
            exists i :: 0 <= i < |lines| && IdOf(lines[i]) == Some(Read(lines).maxId) by {
          if i :| 0 <= i < n && IdOf(p[i]) == Some(Read(p).maxId) {
            assert IdOf(lines[i]) == IdOf(p[i]);
          }
        }
        forall i | 0 <= i < |lines| ensures IdOf(lines[i]).Some? && IdOf(lines[i]).value <= Read(lines).maxId {
          assert i < n ==> lines[i] == p[i];
        }
      }
    }
  }

  lemma {:induction false} StaysStuck(lines: seq<string>, i: nat)
    requires i <= |lines| && Read(lines[..i]) == Stuck
    ensures Read(lines) == Stuck
  {
    if i < |lines| {
      var p := lines[..|lines| - 1];
      assert p[..i] == lines[..i];
      StaysStuck(p, i);
    } else {
      assert lines[..i] == lines;
    }
  }

  /** `parseManifest`: one pass over the lines, then the list is reversed in
      place. */
  method ParseManifest(text: string) returns (r: Parsed)
    ensures r == Parse(text)
  {
    hide Scan, Reverse, Increment;
    var maxId, sstables := 0, [];
    var lines := Scan(text);
    var i := 0;
    while i < |lines|
      invariant 0 <= i <= |lines|
      invariant Read(lines[..i]) == Progress(sstables, maxId)
    {
      var line := TrimSpace(lines[i]);
      var id := Atoi(TrimSuffix(TrimPrefix(line, "sst-"), ".json"));
      assert lines[..i + 1][..i] == lines[..i];
      if id.None? {
        StaysStuck(lines, i + 1);
        return BadManifest;
      }
      sstables := sstables + [line];
      maxId := Max(maxId, id.value);
      i := i + 1;
    }
    assert lines[..i] == lines;
    var reversed := new string[|sstables|](k requires 0 <= k < |sstables| => sstables[k]);
    assert reversed[..] == sstables;
    ReverseInPlace(reversed);
    r := Manifest(reversed[..], Increment(maxId));
  }

  /** `slices.Reverse` */
  method ReverseInPlace<T>(a: array<T>)
    modifies a
    ensures a[..] == Reverse(old(a[..]))
  {
    var i, j := 0, a.Length;
    while i + 1 < j
      invariant 0 <= i <= a.Length && j == a.Length - i && i <= j + 1
      invariant forall k :: 0 <= k < i ==> a[k] == old(a[a.Length - 1 - k])
      invariant forall k :: j <= k < a.Length ==> a[k] == old(a[a.Length - 1 - k])
      invariant forall k :: i <= k < j ==> a[k] == old(a[k])
    {
      a[i], a[j - 1] := a[j - 1], a[i];
      i, j := i + 1, j - 1;
    }
    ReversedSeq(old(a[..]), a[..]);
  }

  lemma ReversedSeq<T>(s: seq<T>, t: seq<T>)
    requires |t| == |s| && forall k :: 0 <= k < |s| ==> t[k] == s[|s| - 1 - k]
    ensures t == Reverse(s)
  {
    assert s == [] ==> t == Reverse(s);
    forall k | 0 <= k < |s| ensures |Reverse(s)| == |s| && t[k] == Reverse(s)[k] {
      ReverseAt(s, k);
    }
  }

  // ----- the round trip -----

  lemma NameIsPlain(id: nat)
    ensures Plain(Name(id)) && TrimSpace(Name(id)) == Name(id)
    ensures IdOf(Name(id)) == if id <= MAX_INT then Some(id) else None
  {
    DecimalDigits(id);
    AtoiDecimal(id);
    var d, n := Decimal(id), Name(id);
    assert n[0] == 's' && n[|n| - 1] == 'n';
    forall c | c in n ensures c != '\n' {
      assert c in "sst-" || c in d || c in ".json";
    }
    assert TrimPrefix(n, "sst-") == d + ".json";
    assert TrimSuffix(d + ".json", ".json") == d;
  }

  /** Different tables have different files. */
  lemma NamesDiffer(a: nat, b: nat)
    requires Name(a) == Name(b)
    ensures a == b
  {
    DecimalDigits(a);
    DecimalDigits(b);
    assert Decimal(a) == Name(a)[4..|Name(a)| - 5];
    assert Decimal(b) == Name(b)[4..|Name(b)| - 5];
  }

  function Greatest(ids: seq<nat>): nat {
    if ids == [] then 0
    else if Greatest(ids[..|ids| - 1]) >= ids[|ids| - 1] then Greatest(ids[..|ids| - 1])
    else ids[|ids| - 1]
  }

  lemma {:induction false} GreatestBounds(ids: seq<nat>)
    ensures forall i :: 0 <= i < |ids| ==> ids[i] <= Greatest(ids)
    ensures ids != [] ==> Greatest(ids) in ids
  {
    if ids != [] {
      var p := ids[..|ids| - 1];
      GreatestBounds(p);
      assert forall i :: 0 <= i < |p| ==> p[i] == ids[i];
    }
  }

  lemma {:induction false} ReadNames(ids: seq<nat>)
    ensures Read(Names(ids)) == if Greatest(ids) <= MAX_INT then Progress(Names(ids), Greatest(ids)) else Stuck
  {
    hide Name, IdOf, TrimSpace;
    if ids != [] {
      var n := |ids| - 1;
      assert Names(ids)[..n] == Names(ids[..n]);
      ReadNames(ids[..n]);
      NameIsPlain(ids[n]);
      assert Names(ids) == Names(ids[..n]) + [Name(ids[n])];
    }
  }

  lemma {:induction false} ReverseNames(ids: seq<nat>)
    ensures Reverse(Names(ids)) == Names(Reverse(ids))
    ensures |Reverse(ids)| == |ids|
    ensures forall id :: id in Reverse(ids) <==> id in ids
  {
    if ids != [] {
      var n := |ids| - 1;
      assert Names(ids)[..n] == Names(ids[..n]);
      ReverseNames(ids[..n]);
      assert Names(Reverse(ids)) == [Name(ids[n])] + Names(Reverse(ids[..n]));
      assert ids == ids[..n] + [ids[n]];
    }
  }

  lemma GreatestReversed(ids: seq<nat>)
    ensures Greatest(Reverse(ids)) == Greatest(ids)
  {
    ReverseNames(ids);
    GreatestBounds(ids);
    GreatestBounds(Reverse(ids));
  }

  lemma RenderedParses(ids: seq<nat>)
    ensures Parse(Render(Names(ids))) ==
      if Greatest(ids) <= MAX_INT then Manifest(Names(ids), Increment(Greatest(ids))) else BadManifest
  {
    var rev := Reverse(ids);
    ReverseNames(ids);
    ReverseTwice(Names(ids));
    GreatestReversed(ids);
    GreatestBounds(ids);
    forall i | 0 <= i < |rev| ensures Plain(Names(rev)[i]) {
      NameIsPlain(rev[i]);
    }
    ScanJoin(Names(rev));
    ReadNames(rev);
  }

  /** Writing a manifest and parsing it gives back the list, newest first. The
      next id is one above every listed id and no more, so it is the one that a
      store loads, unless the greatest is the last `int`, when it wraps. Parsing
      fails exactly if an id does not fit an `int`. */
  lemma ManifestRoundTrip(ids: seq<nat>)
    ensures var p := Parse(Render(Names(ids)));
      && (p.Manifest? <==> forall id :: id in ids ==> id <= MAX_INT)
      && (p.Manifest? ==> p.names == Names(ids))
      && (p.Manifest? && MAX_INT in ids ==> p.nextId == MIN_INT)
      && (p.Manifest? && MAX_INT !in ids ==>
            && p.nextId == Greatest(ids) + 1
            && (forall id :: id in ids ==> id < p.nextId)
            && if ids == [] then p.nextId == 1 else p.nextId - 1 in ids)
  {
    hide Parse, Render, Names;
    RenderedParses(ids);
    GreatestBounds(ids);
    assert forall id :: id in ids ==> id <= Greatest(ids);
  }
}
