/**
 * One line of `/proc/self/maps` read into a `MemoryRegion`: the line is cut
 * into whitespace-separated tokens; the first is the address range
 * `start-end` in hexadecimal, the second the permissions, the sixth (when
 * there is one) the name of the mapping.
 *
 * The source's region is only written by its constructor, so the model keeps
 * it as a value and the constructor as a method that returns it or the error
 * it throws.
 */
module MemoryRegions {
  import opened Wrappers
  import opened Arithmetic

  /** The characters `operator>>` skips: space, tab, newline, vertical tab, form feed, carriage return. */
  predicate IsSpace(c: char) {
    c == ' ' || '\t' <= c <= '\r'
  }

  /** A token: at least one character, none of them whitespace. */
  predicate IsToken(t: string) {
    |t| > 0 && forall k :: 0 <= k < |t| ==> !IsSpace(t[k])
  }

  /** What `while (s >> token)` has read after a prefix of the line: the tokens completed and the one being read. */
  datatype Scan = Scan(done: seq<string>, current: string)

  function Step(sc: Scan, c: char): Scan {
    if !IsSpace(c) then Scan(sc.done, sc.current + [c])
    else if sc.current == [] then sc
    else Scan(sc.done + [sc.current], [])
  }

  function ScanOf(s: string): Scan {
    if s == [] then Scan([], []) else Step(ScanOf(s[..|s| - 1]), s[|s| - 1])
  }

  /** The tokens of a line, in order. */
  function Tokens(s: string): seq<string> {
    var sc := ScanOf(s);
    if sc.current == [] then sc.done else sc.done + [sc.current]
  }

  /** The scan keeps only proper tokens, and the token being read has no whitespace. */
  lemma {:induction false} ScanTokens(s: string)
    ensures forall k :: 0 <= k < |ScanOf(s).done| ==> IsToken(ScanOf(s).done[k])
    ensures forall k :: 0 <= k < |ScanOf(s).current| ==> !IsSpace(ScanOf(s).current[k])
  {
    if s != [] {
      ScanTokens(s[..|s| - 1]);
    }
  }

  /** Every token of a line is a proper token. */
  lemma TokensAreTokens(s: string)
    ensures forall k :: 0 <= k < |Tokens(s)| ==> IsToken(Tokens(s)[k])
  {
    ScanTokens(s);
  }

  /** Reading a run of non-whitespace characters extends the token being read. */
  lemma {:induction false} ScanWord(s: string, w: string)
    requires forall k :: 0 <= k < |w| ==> !IsSpace(w[k])
    ensures ScanOf(s + w) == Scan(ScanOf(s).done, ScanOf(s).current + w)
    decreases |w|
  {
    if w != [] {
      var init := w[..|w| - 1];
      assert (s + w)[..|s + w| - 1] == s + init;
      ScanWord(s, init);
      assert init + [w[|w| - 1]] == w;
    } else {
      assert s + w == s;
    }
  }

  /** The tokens separated by single spaces. */
  function Join(ts: seq<string>): string {
    if ts == [] then [] else if |ts| == 1 then ts[0] else Join(ts[..|ts| - 1]) + [' '] + ts[|ts| - 1]
  }

  /** Reading tokens joined by spaces leaves all but the last completed and the last being read. */
  lemma {:induction false} ScanJoin(ts: seq<string>)
    requires |ts| > 0 && forall k :: 0 <= k < |ts| ==> IsToken(ts[k])
    ensures ScanOf(Join(ts)) == Scan(ts[..|ts| - 1], ts[|ts| - 1])
  {
    if |ts| == 1 {
      ScanWord([], ts[0]);
      assert [] + ts[0] == ts[0];
    } else {
      var init := ts[..|ts| - 1];
      ScanJoin(init);
      var j := Join(init) + [' '];
      assert j[..|j| - 1] == Join(init);
      assert ScanOf(j) == Scan(init, []);
      ScanWord(j, ts[|ts| - 1]);
    }
  }

  /** Tokenizing proper tokens joined by spaces gives the tokens back. */
  lemma TokensOfJoin(ts: seq<string>)
    requires forall k :: 0 <= k < |ts| ==> IsToken(ts[k])
    ensures Tokens(Join(ts)) == ts
  {
    if ts != [] {
      ScanJoin(ts);
      LastSplit(ts);
    }
  }

  lemma LastSplit<T>(s: seq<T>)
    requires |s| > 0
    ensures s[..|s| - 1] + [s[|s| - 1]] == s
  {
  }

  /** The tokenizing loop of the constructor: one character at a time. */
  method Tokenize(line: string) returns (tokens: seq<string>)
    ensures tokens == Tokens(line)
  {
    var done: seq<string> := [];
    var current: string := [];
    for i := 0 to |line|
      invariant ScanOf(line[..i]) == Scan(done, current)
    {
      assert line[..i + 1][..i] == line[..i];
      var c := line[i];
      if !IsSpace(c) {
        current := current + [c];
      } else if current != [] {
        done := done + [current];
        current := [];
      }
    }
    assert line[..|line|] == line;
    tokens := if current == [] then done else done + [current];
  }

  predicate IsHexDigit(c: char) {
    '0' <= c <= '9' || 'a' <= c <= 'f' || 'A' <= c <= 'F'
  }

  function HexDigit(c: char): (v: nat)
    requires IsHexDigit(c)
    ensures v < 16
  {
    if '0' <= c <= '9' then c as nat - '0' as nat
    else if 'a' <= c <= 'f' then c as nat - 'a' as nat + 10
    else c as nat - 'A' as nat + 10
  }

  predicate AllHex(ds: string) {
    forall k :: 0 <= k < |ds| ==> IsHexDigit(ds[k])
  }

  /** The number a string of hexadecimal digits denotes, most significant first. */
  function HexValue(ds: string): nat
    requires AllHex(ds)
  {
    if ds == [] then 0 else 16 * HexValue(ds[..|ds| - 1]) + HexDigit(ds[|ds| - 1])
  }

  /** How many hexadecimal digits the string starts with. */
  function HexRun(s: string): (n: nat)
    ensures n <= |s| && AllHex(s[..n])
    ensures n < |s| ==> !IsHexDigit(s[n])
  {
    if s == [] || !IsHexDigit(s[0]) then 0
    else
      var n := 1 + HexRun(s[1..]);
      assert forall k :: 1 <= k < n ==> s[..n][k] == s[1..][..n - 1][k - 1];
      n
  }

  /** `unsigned long long` holds values below 2^64. */
  const ULLONG_LIMIT: nat := 0x1_0000_0000_0000_0000

  /**
   * `std::stoull(s, 0, 16)`: the value of the leading hexadecimal digits;
   * invalid_argument when there is none, out_of_range when the value does not
   * fit in 64 bits.
   */
  function ParseHex(s: string): (r: Result<nat>)
    ensures r == Failure(InvalidArgument) <==> HexRun(s) == 0
    ensures r == Failure(OutOfRange) <==> HexRun(s) > 0 && HexValue(s[..HexRun(s)]) >= ULLONG_LIMIT
    ensures r.Success? ==> r.value == HexValue(s[..HexRun(s)]) && r.value < ULLONG_LIMIT
  {
    var n := HexRun(s);
    if n == 0 then Failure(InvalidArgument)
    else if HexValue(s[..n]) >= ULLONG_LIMIT then Failure(OutOfRange)
    else Success(HexValue(s[..n]))
  }

  /** Parsing stops at the first character that is not a hexadecimal digit. */
  lemma ParseHexPrefix(ds: string, rest: string)
    requires |ds| > 0 && AllHex(ds) && HexValue(ds) < ULLONG_LIMIT
    requires rest == [] || !IsHexDigit(rest[0])
    ensures ParseHex(ds + rest) == Success(HexValue(ds))
  {
    HexRunOf(ds, rest);
    assert (ds + rest)[..|ds|] == ds;
  }

  lemma {:induction false} HexRunOf(ds: string, rest: string)
    requires AllHex(ds) && (rest == [] || !IsHexDigit(rest[0]))
    ensures HexRun(ds + rest) == |ds|
  {
    if ds != [] {
      assert (ds + rest)[1..] == ds[1..] + rest;
      HexRunOf(ds[1..], rest);
    } else {
      assert ds + rest == rest;
    }
  }

  /** `string.find('-')`: the first position of a dash, if any. */
  function FindDash(s: string): (p: Option<nat>)
    ensures p.Some? ==> p.value < |s| && s[p.value] == '-' && forall k :: 0 <= k < p.value ==> s[k] != '-'
    ensures p.None? ==> forall k :: 0 <= k < |s| ==> s[k] != '-'
  {
    if s == [] then None
    else if s[0] == '-' then Some(0)
    else match FindDash(s[1..]) {
      case None => None
      case Some(p) => Some(p + 1)
    }
  }

  /**
   * `parseRange(string)`: runtime_error when there is no dash or the dash is
   * the last character; otherwise the hexadecimal numbers before and after
   * the first dash, with the errors of `stoull`.
   */
  function ParseRange(s: string): (r: Result<(nat, nat)>)
    ensures FindDash(s).None? || FindDash(s).value == |s| - 1 <==> r == Failure(RuntimeError)
  {
    match FindDash(s) {
      case None => Failure(RuntimeError)
      case Some(p) =>
        if |s| < p + 2 then Failure(RuntimeError)
        else
          match ParseHex(s[..p]) {
            case Failure(e) => Failure(e)
            case Success(start) =>
              match ParseHex(s[p + 1..]) {
                case Failure(e) => Failure(e)
                case Success(end) => Success((start, end))
              }
          }
    }
  }

  /** A range written `start-end` in hexadecimal digits parses back to the two numbers. */
  lemma ParseRangeOf(a: string, b: string)
    requires |a| > 0 && AllHex(a) && HexValue(a) < ULLONG_LIMIT
    requires |b| > 0 && AllHex(b) && HexValue(b) < ULLONG_LIMIT
    ensures ParseRange(a + "-" + b) == Success((HexValue(a), HexValue(b)))
  {
    var s := a + "-" + b;
    assert s[|a|] == '-';
    assert forall k :: 0 <= k < |a| ==> s[k] == a[k] && s[k] != '-';
    assert FindDash(s) == Some(|a|);
    assert s[..|a|] == a + [];
    assert s[|a| + 1..] == b + [];
    ParseHexPrefix(a, []);
    ParseHexPrefix(b, []);
  }

  /** A mapping: its address range, its permissions and its name (empty for an anonymous mapping). */
  datatype MemoryRegion = MemoryRegion(range: (nat, nat), permissions: string, name: string) {
    /** `isAnonymous()`: the mapping has no name. */
    predicate IsAnonymous() {
      name == []
    }

    /** `isHeap()`. */
    predicate IsHeap() {
      name == "[heap]"
    }

    /** `isVvar()`. */
    predicate IsVvar() {
      name == "[vvar]"
    }

    /** `hasPath()`: a name that is not a bracketed pseudo-name such as `[stack]`. */
    predicate HasPath() {
      !IsAnonymous() && name[0] != '['
    }

    /** `getPath()`: the name when it is a path, the empty string otherwise. */
    function GetPath(): (path: string)
      ensures path == [] || path == name
    {
      if IsAnonymous() || name[0] == '[' then "" else name
    }

    /** `isReadable()`: the permissions start with `r`. */
    predicate IsReadable() {
      |permissions| > 0 && permissions[0] == 'r'
    }
  }

  /** A region has a path exactly when `getPath` returns something, and then it is the name. */
  lemma PathAgreement(m: MemoryRegion)
    ensures m.HasPath() <==> m.GetPath() != []
    ensures m.HasPath() ==> m.GetPath() == m.name
    ensures m.IsHeap() || m.IsVvar() ==> !m.HasPath() && !m.IsAnonymous()
  {
  }

  /**
   * The region a line describes: runtime_error for fewer than two tokens;
   * the range from the first token, the permissions from the second, the
   * name from the sixth when the line has more than five tokens.
   */
  function RegionOf(line: string): (r: Result<MemoryRegion>)
    ensures |Tokens(line)| < 2 ==> r == Failure(RuntimeError)
  {
    var tokens := Tokens(line);
    if |tokens| < 2 then Failure(RuntimeError)
    else
      match ParseRange(tokens[0]) {
        case Failure(e) => Failure(e)
        case Success(range) =>
          Success(MemoryRegion(range, tokens[1], if |tokens| > 5 then tokens[5] else ""))
      }
  }

  /** `MemoryRegion(line)`: tokenize, then read the fields from the tokens. */
  method Parse(line: string) returns (r: Result<MemoryRegion>)
    ensures r == RegionOf(line)
  {
    var tokens := Tokenize(line);
    if |tokens| < 2 {
      return Failure(RuntimeError);
    }
    var range := ParseRange(tokens[0]);
    if range.Failure? {
      return Failure(range.error);
    }
    var name := "";
    if |tokens| > 5 {
      name := tokens[5];
    }
    return Success(MemoryRegion(range.value, tokens[1], name));
  }

  /** The range field and the further fields of a maps line are tokens. */
  lemma FieldsAreTokens(start: string, end: string, fields: seq<string>)
    requires AllHex(start) && AllHex(end)
    requires forall k :: 0 <= k < |fields| ==> IsToken(fields[k])
    ensures forall k :: 0 <= k < |[start + "-" + end] + fields| ==> IsToken(([start + "-" + end] + fields)[k])
  {
    var t := start + "-" + end;
    forall i | 0 <= i < |t| ensures !IsSpace(t[i]) {
      if i < |start| {
        assert t[i] == start[i];
      } else if i > |start| {
        assert t[i] == end[i - |start| - 1];
      }
    }
  }

  /**
   * A maps line written from a range `start-end`, the permissions and further
   * fields reads back as the region: the name is the sixth field when there
   * is one and empty otherwise.
   */
  lemma RegionOfLine(start: string, end: string, fields: seq<string>)
    requires |start| > 0 && AllHex(start) && HexValue(start) < ULLONG_LIMIT
    requires |end| > 0 && AllHex(end) && HexValue(end) < ULLONG_LIMIT
    requires |fields| >= 1 && forall k :: 0 <= k < |fields| ==> IsToken(fields[k])
    ensures RegionOf(Join([start + "-" + end] + fields)) ==
      Success(MemoryRegion((HexValue(start), HexValue(end)), fields[0], if |fields| > 4 then fields[4] else ""))
  {
    var ts := [start + "-" + end] + fields;
    FieldsAreTokens(start, end, fields);
    TokensOfJoin(ts);
    ParseRangeOf(start, end);
  }
}
