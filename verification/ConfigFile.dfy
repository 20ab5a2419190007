/** The configuration file: what is written on exit, and what the line loop makes of it at the next
    start. Text is a sequence of characters; file access is left out. */
module ConfigFile {

  type Int32 = n: int | -0x8000_0000 <= n < 0x8000_0000
  type UInt32 = n: nat | n < 0x1_0000_0000

  datatype Settings = Settings(ifaceWan: string, ifaceLan: string, routerIp: string, applyRouterIp: bool,
                               prefixLen: Int32, acceleration: bool, threshold: UInt32, enableNat: bool,
                               poolStart: string, poolEnd: string, lease: int)

  const BUFFER: nat := 8191
  const KEY_CAP: nat := 64
  const VALUE_CAP: nat := 256

  // ----- Characters and numbers -----

  /** The position of the first c in s, or |s|. */
  function Find(s: string, c: char): (i: nat)
    ensures i <= |s|
    ensures i < |s| ==> s[i] == c
    ensures forall k :: 0 <= k < i ==> s[k] != c
  {
    if s == [] || s[0] == c then 0 else 1 + Find(s[1..], c)
  }

  /** A C string ends at its first NUL. */
  function CStr(s: string): string { s[..Find(s, '\0')] }

  /** A line without one trailing carriage return. */
  function Chop(s: string): string { if s != [] && s[|s| - 1] == '\r' then s[..|s| - 1] else s }

  function Digits(n: nat): (s: string)
    ensures s != [] && forall i :: 0 <= i < |s| ==> '0' <= s[i] <= '9'
  {
    var last := ['0' + (n % 10) as char];
    if n < 10 then last else Digits(n / 10) + last
  }

  function PrintInt(n: int): string { if n < 0 then ['-'] + Digits(-n) else Digits(n) }

  function Value(s: string): nat
    requires forall i :: 0 <= i < |s| ==> '0' <= s[i] <= '9'
  {
    if s == [] then 0 else 10 * Value(s[..|s| - 1]) + (s[|s| - 1] - '0') as nat
  }

  /** The length of the leading digits of s. */
  function DigitRun(s: string): (i: nat)
    ensures i <= |s| && forall k :: 0 <= k < i ==> '0' <= s[k] <= '9'
    ensures i < |s| ==> !('0' <= s[i] <= '9')
  {
    if s == [] || !('0' <= s[0] <= '9') then 0 else 1 + DigitRun(s[1..])
  }

  /** from_chars into a variable that is 0: no digits, or too many, leave it alone. */
  function ParseU32(s: string): UInt32 {
    var v := Value(s[..DigitRun(s)]);
    if v < 0x1_0000_0000 then v else 0
  }

  function ToInt32(n: UInt32): Int32 { if n < 0x8000_0000 then n else n - 0x1_0000_0000 }

  function Bool(b: bool): string { if b then "true" else "false" }

  predicate IsTrue(s: string) { s == "true" || s == "1" }

  // ----- Keys -----

  datatype Key =
    | IfaceWan | IfaceLan | RouterIp | ApplyRouterIp | PrefixLen | Acceleration
    | Threshold | EnableNat | PoolStart | PoolEnd | LeaseSeconds

  function Name(k: Key): string {
    match k
    case IfaceWan => "IFACE_WAN"
    case IfaceLan => "IFACE_LAN"
    case RouterIp => "ROUTER_IP"
    case ApplyRouterIp => "APPLY_ROUTER_IP_TO_LAN"
    case PrefixLen => "LAN_PREFIX_LEN"
    case Acceleration => "ENABLE_ACCELERATION"
    case Threshold => "LARGE_PACKET_THRESHOLD"
    case EnableNat => "enable_nat"
    case PoolStart => "DHCP_POOL_START"
    case PoolEnd => "DHCP_POOL_END"
    case LeaseSeconds => "DHCP_LEASE_SECONDS"
  }

  const KEYS: seq<Key> := [IfaceWan, IfaceLan, RouterIp, ApplyRouterIp, PrefixLen, Acceleration,
                           Threshold, EnableNat, PoolStart, PoolEnd, LeaseSeconds]

  datatype Match = NoKey | Known(key: Key)

  /** The chain of comparisons: the first key of that name. */
  function Lookup(keys: seq<Key>, name: string): Match {
    if keys == [] then NoKey
    else if Name(keys[0]) == name then Known(keys[0])
    else Lookup(keys[1..], name)
  }

  function Set(c: Settings, k: Key, v: string): Settings {
    match k
    case IfaceWan => c.(ifaceWan := v)
    case IfaceLan => c.(ifaceLan := v)
    case RouterIp => c.(routerIp := v)
    case ApplyRouterIp => c.(applyRouterIp := IsTrue(v))
    case PrefixLen => c.(prefixLen := ToInt32(ParseU32(v)))
    case Acceleration => c.(acceleration := IsTrue(v))
    case Threshold => c.(threshold := ParseU32(v))
    case EnableNat => c.(enableNat := IsTrue(v))
    case PoolStart => c.(poolStart := v)
    case PoolEnd => c.(poolEnd := v)
    case LeaseSeconds => c.(lease := ParseU32(v))
  }

  // ----- Loading -----

  datatype Pair = NoPair | Pair(key: string, value: string)

  /** The key and value buffers after a line, as C strings. */
  function ParseLine(line: string): Pair {
    var eq := Find(line, '=');
    if eq == |line| || eq == 0 || eq >= KEY_CAP || |line| - eq - 1 >= VALUE_CAP then NoPair
    else Pair(CStr(line[..eq]), CStr(line[eq + 1..]))
  }

  function Assign(c: Settings, name: string, value: string): Settings {
    var m := Lookup(KEYS, name);
    if m.Known? then Set(c, m.key, value) else c
  }

  /** One line of the file, without its newline. */
  function ApplyLine(c: Settings, line: string): Settings {
    var l := Chop(line);
    if l == [] || l[0] == '#' then c
    else
      match ParseLine(l)
      case NoPair => c
      case Pair(key, value) => Assign(c, key, value)
  }

  function LoadLines(text: string, c: Settings): Settings
    decreases |text|
  {
    if text == [] then c
    else
      var n := Find(text, '\n');
      LoadLines(if n < |text| then text[n + 1..] else [], ApplyLine(c, text[..n]))
  }

  function Buffered(text: string): string { if |text| <= BUFFER then text else text[..BUFFER] }

  /** Only what fits the read buffer is seen. */
  function Load(text: string, c: Settings): Settings { LoadLines(Buffered(text), c) }

  // ----- Saving -----

  const COMMENT: string := "# Auto-saved on shutdown"

  /** The value written for a key. */
  function Field(c: Settings, k: Key): string {
    match k
    case IfaceWan => CStr(c.ifaceWan)
    case IfaceLan => CStr(c.ifaceLan)
    case RouterIp => CStr(c.routerIp)
    case ApplyRouterIp => Bool(c.applyRouterIp)
    case PrefixLen => PrintInt(c.prefixLen)
    case Acceleration => Bool(c.acceleration)
    case Threshold => PrintInt(c.threshold)
    case EnableNat => Bool(c.enableNat)
    case PoolStart => CStr(c.poolStart)
    case PoolEnd => CStr(c.poolEnd)
    case LeaseSeconds => PrintInt(c.lease % 0x1_0000_0000)
  }

  function Line(k: Key, v: string): string { Name(k) + "=" + v }

  /** One line per key, in the order of the keys. */
  function Print(c: Settings, keys: seq<Key>): string {
    if keys == [] then [] else Line(keys[0], Field(c, keys[0])) + "\n" + Print(c, keys[1..])
  }

  function Save(c: Settings): string { COMMENT + "\n" + Print(c, KEYS) }

  // ----- Reading back lines and numbers -----

  lemma FindSkips(s: string, t: string, c: char)
    requires c !in s
    ensures Find(s + [c] + t, c) == |s| && Find(s, c) == |s|
  {
    var all := s + [c] + t;
    assert all[|s|] == c && forall k | 0 <= k < |s| :: all[k] == s[k];
  }

  lemma {:induction false} DigitsValue(n: nat)
    ensures Value(Digits(n)) == n
  {
    if n >= 10 {
      DigitsValue(n / 10);
      assert Digits(n)[..|Digits(n)| - 1] == Digits(n / 10);
    } else {
      assert Digits(n)[..0] == [];
    }
  }

  lemma ParseDigits(n: UInt32)
    ensures ParseU32(Digits(n)) == n
  {
    DigitsValue(n);
    assert Digits(n)[..|Digits(n)|] == Digits(n);
  }

  lemma {:induction false} DigitsLength(n: nat, k: nat, bound: nat)
    requires n < bound && bound == Power10(k) && k >= 1
    ensures |Digits(n)| <= k
  {
    if n >= 10 {
      DigitsLength(n / 10, k - 1, bound / 10);
    }
  }

  function Power10(k: nat): nat { if k == 0 then 1 else 10 * Power10(k - 1) }

  // ----- What a field comes back as -----

  lemma CStrOfPlain(s: string)
    requires '\0' !in s
    ensures CStr(s) == s
  {
    assert Find(s, '\0') == |s|;
  }

  /** Names are made of letters and underscores, all of which come after '=' in the alphabet. */
  predicate Letters(name: string) { forall i :: 0 <= i < |name| ==> name[i] > '=' }

  lemma NamesAreLetters(k: Key)
    ensures 0 < |Name(k)| <= 22 && Letters(Name(k))
  {
    match k
    case IfaceWan | IfaceLan | RouterIp | ApplyRouterIp => FirstNames(k);
    case PrefixLen | Acceleration | Threshold => MiddleNames(k);
    case _ => LastNames(k);
  }

  lemma FirstNames(k: Key)
    requires k.IfaceWan? || k.IfaceLan? || k.RouterIp? || k.ApplyRouterIp?
    ensures 0 < |Name(k)| <= 22 && Letters(Name(k))
  {
  }

  lemma MiddleNames(k: Key)
    requires k.PrefixLen? || k.Acceleration? || k.Threshold?
    ensures 0 < |Name(k)| <= 22 && Letters(Name(k))
  {
  }

  lemma LastNames(k: Key)
    requires k.EnableNat? || k.PoolStart? || k.PoolEnd? || k.LeaseSeconds?
    ensures 0 < |Name(k)| <= 22 && Letters(Name(k))
  {
  }

  lemma NamesArePlain(k: Key)
    ensures 0 < |Name(k)| <= 22 && '=' !in Name(k) && '\0' !in Name(k) && '\n' !in Name(k) && Name(k)[0] != '#'
  {
    NamesAreLetters(k);
  }

  lemma NamesDiffer(j: Key, k: Key)
    requires j != k
    ensures Name(j) != Name(k)
  {
    if |Name(j)| == |Name(k)| {
      assert Name(IfaceWan)[6] == 'W' && Name(IfaceLan)[6] == 'L' && Name(RouterIp)[6] == '_';
      assert Name(ApplyRouterIp)[6] == 'R' && Name(Threshold)[6] == 'P';
      assert Name(j)[6] != Name(k)[6];
    }
  }

  lemma {:induction false} LookupFinds(keys: seq<Key>, k: Key)
    requires k in keys
    ensures Lookup(keys, Name(k)) == Known(k)
  {
    if keys[0] != k {
      NamesDiffer(keys[0], k);
      LookupFinds(keys[1..], k);
    }
  }

  lemma AllKeys(k: Key)
    ensures k in KEYS
  {
    match k
    case IfaceWan => assert KEYS[0] == k;
    case IfaceLan => assert KEYS[1] == k;
    case RouterIp => assert KEYS[2] == k;
    case ApplyRouterIp => assert KEYS[3] == k;
    case PrefixLen => assert KEYS[4] == k;
    case Acceleration => assert KEYS[5] == k;
    case Threshold => assert KEYS[6] == k;
    case EnableNat => assert KEYS[7] == k;
    case PoolStart => assert KEYS[8] == k;
    case PoolEnd => assert KEYS[9] == k;
    case LeaseSeconds => assert KEYS[10] == k;
  }

  lemma AssignByName(c: Settings, k: Key, v: string)
    ensures Assign(c, Name(k), v) == Set(c, k, v)
  {
    AllKeys(k);
    LookupFinds(KEYS, k);
  }

  /** A value that fits one line and the value buffer. */
  predicate Fits(v: string) { '\n' !in v && '\0' !in v && |Chop(v)| < VALUE_CAP }

  lemma ParseField(key: string, v: string)
    requires 0 < |key| < KEY_CAP && '=' !in key && '\0' !in key && '\0' !in v && |v| < VALUE_CAP
    ensures ParseLine(key + ['='] + v) == Pair(key, v)
  {
    var l := key + ['='] + v;
    FindSkips(key, v, '=');
    assert l[..|key|] == key && l[|key| + 1..] == v;
    CStrOfPlain(key);
    CStrOfPlain(v);
  }

  lemma ChopLine(key: string, v: string)
    ensures Chop(key + "=" + v) == key + ['='] + Chop(v)
  {
    var line := key + "=" + v;
    assert line[|line| - 1] == if v == [] then '=' else v[|v| - 1];
  }

  /** The line of a key sets its value, less one trailing carriage return. */
  lemma FieldLine(c: Settings, k: Key, v: string)
    requires Fits(v)
    ensures ApplyLine(c, Line(k, v)) == Set(c, k, Chop(v)) && '\n' !in Line(k, v)
  {
    NamesArePlain(k);
    ChopLine(Name(k), v);
    ParseField(Name(k), Chop(v));
    AssignByName(c, k, Chop(v));
  }

  lemma LoadOneLine(line: string, rest: string, c: Settings)
    requires '\n' !in line
    ensures LoadLines(line + "\n" + rest, c) == LoadLines(rest, ApplyLine(c, line))
  {
    var text := line + "\n" + rest;
    assert text == line + ['\n'] + rest;
    FindSkips(line, rest, '\n');
    assert text[..|line|] == line && text[|line| + 1..] == rest;
  }

  lemma FlagValue(b: bool)
    ensures Chop(Bool(b)) == Bool(b) && IsTrue(Bool(b)) == b
    ensures '\0' !in Bool(b) && '\n' !in Bool(b) && |Bool(b)| <= 5
  {
    if b {
      assert Bool(b)[3] == 'e';
    } else {
      assert Bool(b)[4] == 'e' && |"true"| != 5;
    }
  }

  lemma NumberValue(n: int)
    ensures Chop(PrintInt(n)) == PrintInt(n) && '\0' !in PrintInt(n) && '\n' !in PrintInt(n)
    ensures 0 <= n < 0x1_0000_0000 ==> ParseU32(PrintInt(n)) == n
    ensures n < 0 ==> ParseU32(PrintInt(n)) == 0
    ensures -0x1_0000_0000 < n < 0x1_0000_0000 ==> |PrintInt(n)| <= 11
  {
    var s := PrintInt(n);
    assert forall i | 0 <= i < |s| :: s[i] == '-' || '0' <= s[i] <= '9';
    if 0 <= n < 0x1_0000_0000 {
      ParseDigits(n);
    }
    if -0x1_0000_0000 < n < 0x1_0000_0000 {
      assert Power10(5) == 10_0000;
      assert Power10(10) == 100_0000_0000;
      DigitsLength(if n < 0 then -n else n, 10, 100_0000_0000);
    }
  }

  // ----- The round trip -----

  /** What a text setting comes back as. */
  function Kept(s: string): string { Chop(CStr(s)) }

  predicate Carried(s: string) { Fits(CStr(s)) }

  predicate AllCarried(c: Settings) {
    Carried(c.ifaceWan) && Carried(c.ifaceLan) && Carried(c.routerIp) && Carried(c.poolStart) && Carried(c.poolEnd)
  }

  /** What the settings come back as. */
  function Reloaded(c: Settings): Settings {
    c.(ifaceWan := Kept(c.ifaceWan), ifaceLan := Kept(c.ifaceLan), routerIp := Kept(c.routerIp),
       prefixLen := if c.prefixLen < 0 then 0 else c.prefixLen,
       poolStart := Kept(c.poolStart), poolEnd := Kept(c.poolEnd), lease := c.lease % 0x1_0000_0000)
  }

  predicate FlagKept(b: bool) { Fits(Bool(b)) && Chop(Bool(b)) == Bool(b) && IsTrue(Bool(b)) == b && |Bool(b)| <= 5 }

  predicate NumberKept(n: int) {
    var s := PrintInt(n);
    Fits(s) && Chop(s) == s && |s| <= 11 && ParseU32(s) == if n < 0 then 0 else n
  }

  lemma FlagIsKept(b: bool)
    ensures FlagKept(b)
  {
    FlagValue(b);
  }

  lemma NumberIsKept(n: int)
    requires -0x1_0000_0000 < n < 0x1_0000_0000
    ensures NumberKept(n)
  {
    NumberValue(n);
  }

  /** The field of key k is the same. */
  predicate Same(a: Settings, b: Settings, k: Key) {
    match k
    case IfaceWan => a.ifaceWan == b.ifaceWan
    case IfaceLan => a.ifaceLan == b.ifaceLan
    case RouterIp => a.routerIp == b.routerIp
    case ApplyRouterIp => a.applyRouterIp == b.applyRouterIp
    case PrefixLen => a.prefixLen == b.prefixLen
    case Acceleration => a.acceleration == b.acceleration
    case Threshold => a.threshold == b.threshold
    case EnableNat => a.enableNat == b.enableNat
    case PoolStart => a.poolStart == b.poolStart
    case PoolEnd => a.poolEnd == b.poolEnd
    case LeaseSeconds => a.lease == b.lease
  }

  lemma SameInAll(a: Settings, b: Settings)
    requires forall k :: Same(a, b, k)
    ensures a == b
  {
    assert Same(a, b, IfaceWan) && Same(a, b, IfaceLan) && Same(a, b, RouterIp) && Same(a, b, ApplyRouterIp);
    assert Same(a, b, PrefixLen) && Same(a, b, Acceleration) && Same(a, b, Threshold) && Same(a, b, EnableNat);
    assert Same(a, b, PoolStart) && Same(a, b, PoolEnd) && Same(a, b, LeaseSeconds);
  }

  lemma SetKeepsOthers(a: Settings, b: Settings, j: Key, k: Key, v: string)
    requires j != k && Same(a, b, j)
    ensures Same(Set(a, k, v), b, j)
  {
  }

  predicate Text(k: Key) { k.IfaceWan? || k.IfaceLan? || k.RouterIp? || k.PoolStart? || k.PoolEnd? }

  ghost predicate Comes(c: Settings, k: Key) {
    |Field(c, k)| <= 256 && Fits(Field(c, k)) && forall d :: Same(Set(d, k, Chop(Field(c, k))), Reloaded(c), k)
  }

  lemma TextComes(c: Settings, k: Key)
    requires AllCarried(c) && Text(k)
    ensures Comes(c, k)
  {
  }

  lemma FlagComes(c: Settings, k: Key)
    requires k.ApplyRouterIp? || k.Acceleration? || k.EnableNat?
    ensures Comes(c, k)
  {
    FlagIsKept(c.applyRouterIp);
    FlagIsKept(c.acceleration);
    FlagIsKept(c.enableNat);
  }

  lemma NumberComes(c: Settings, k: Key)
    requires k.PrefixLen? || k.Threshold? || k.LeaseSeconds?
    ensures Comes(c, k)
  {
    match k
    case PrefixLen => NumberIsKept(c.prefixLen);
    case Threshold => NumberIsKept(c.threshold);
    case LeaseSeconds => NumberIsKept(c.lease % 0x1_0000_0000);
  }

  ghost predicate SameIn(a: Settings, b: Settings, keys: set<Key>) { forall k :: k in keys ==> Same(a, b, k) }

  /** A line sets its own field and no other. */
  lemma LineSets(c: Settings, d: Settings, k: Key, done: set<Key>)
    requires AllCarried(c) && SameIn(d, Reloaded(c), done)
    ensures SameIn(ApplyLine(d, Line(k, Field(c, k))), Reloaded(c), done + {k})
    ensures '\n' !in Line(k, Field(c, k))
  {
    FieldComes(c, k);
    FieldLine(d, k, Field(c, k));
    SetSetsOne(d, Reloaded(c), k, Chop(Field(c, k)), done);
  }

  lemma SetSetsOne(d: Settings, r: Settings, k: Key, v: string, done: set<Key>)
    requires SameIn(d, r, done) && Same(Set(d, k, v), r, k)
    ensures SameIn(Set(d, k, v), r, done + {k})
  {
    forall j | j in done + {k}
      ensures Same(Set(d, k, v), r, j)
    {
      if j != k {
        SetKeepsOthers(d, r, j, k, v);
      }
    }
  }

  function KeySet(keys: seq<Key>): (r: set<Key>)
    ensures forall k :: k in keys ==> k in r
  {
    if keys == [] then {} else {keys[0]} + KeySet(keys[1..])
  }

  lemma FirstLineSets(c: Settings, keys: seq<Key>, d: Settings, done: set<Key>) returns (e: Settings)
    requires AllCarried(c) && SameIn(d, Reloaded(c), done) && keys != []
    ensures LoadLines(Print(c, keys), d) == LoadLines(Print(c, keys[1..]), e)
    ensures SameIn(e, Reloaded(c), done + {keys[0]})
  {
    var line := Line(keys[0], Field(c, keys[0]));
    LineSets(c, d, keys[0], done);
    LoadOneLine(line, Print(c, keys[1..]), d);
    e := ApplyLine(d, line);
  }

  /** The line loop sets every field of the keys written. */
  lemma {:induction false} LoadFields(c: Settings, keys: seq<Key>, d: Settings, done: set<Key>)
    requires AllCarried(c) && SameIn(d, Reloaded(c), done)
    ensures SameIn(LoadLines(Print(c, keys), d), Reloaded(c), done + KeySet(keys))
    decreases |keys|
  {
    if keys != [] {
      var e := FirstLineSets(c, keys, d, done);
      LoadFields(c, keys[1..], e, done + {keys[0]});
    }
  }

  lemma FieldComes(c: Settings, k: Key)
    requires AllCarried(c)
    ensures Comes(c, k)
  {
    match k
    case ApplyRouterIp | Acceleration | EnableNat => FlagComes(c, k);
    case PrefixLen | Threshold | LeaseSeconds => NumberComes(c, k);
    case _ => TextComes(c, k);
  }

  lemma {:induction false} PrintLength(c: Settings, keys: seq<Key>)
    requires AllCarried(c)
    ensures |Print(c, keys)| <= |keys| * 280
  {
    if keys != [] {
      NamesArePlain(keys[0]);
      FieldComes(c, keys[0]);
      PrintLength(c, keys[1..]);
    }
  }

  lemma CommentIgnored(c: Settings)
    ensures ApplyLine(c, COMMENT) == c && '\n' !in COMMENT && |COMMENT| == 24
  {
    assert COMMENT[23] == 'n' && COMMENT[0] == '#';
  }

  /** Settings whose texts each fit a line come back as `Reloaded` says, whatever was set before. */
  lemma LoadAfterSave(c: Settings, c0: Settings)
    requires AllCarried(c)
    ensures Load(Save(c), c0) == Reloaded(c)
  {
    PrintLength(c, KEYS);
    CommentIgnored(c0);
    LoadOneLine(COMMENT, Print(c, KEYS), c0);
    LoadFields(c, KEYS, c0, {});
    forall k
      ensures Same(Load(Save(c), c0), Reloaded(c), k)
    {
      AllKeys(k);
      assert k in {} + KeySet(KEYS);
    }
    SameInAll(Load(Save(c), c0), Reloaded(c));
  }

  // ----- Exactly which settings survive -----

  predicate SurvivesText(s: string) {
    '\n' !in s && '\0' !in s && |s| < 256 && (s != [] ==> s[|s| - 1] != '\r')
  }

  predicate Survives(c: Settings) {
    && SurvivesText(c.ifaceWan) && SurvivesText(c.ifaceLan) && SurvivesText(c.routerIp)
    && SurvivesText(c.poolStart) && SurvivesText(c.poolEnd)
    && 0 <= c.prefixLen && 0 <= c.lease < 0x1_0000_0000
  }

  /** A text that the line loop can produce. */
  predicate Loadable(s: string) { '\n' !in s && '\0' !in s && |s| < VALUE_CAP }

  predicate AllLoadable(c: Settings) {
    Loadable(c.ifaceWan) && Loadable(c.ifaceLan) && Loadable(c.routerIp) && Loadable(c.poolStart) && Loadable(c.poolEnd)
  }

  lemma ValueIsLoadable(line: string)
    requires '\n' !in line && ParseLine(line).Pair?
    ensures Loadable(ParseLine(line).value)
  {
  }

  lemma SetIsLoadable(c: Settings, k: Key, v: string)
    requires AllLoadable(c) && Loadable(v)
    ensures AllLoadable(Set(c, k, v))
  {
  }

  lemma LineIsLoadable(c: Settings, line: string)
    requires AllLoadable(c) && '\n' !in line
    ensures AllLoadable(ApplyLine(c, line))
  {
    var l := Chop(line);
    var p := ParseLine(l);
    if p.Pair? {
      ValueIsLoadable(l);
      var m := Lookup(KEYS, p.key);
      if m.Known? {
        SetIsLoadable(c, m.key, p.value);
      }
      assert AllLoadable(Assign(c, p.key, p.value));
    }
  }

  lemma {:induction false} LoadIsLoadable(text: string, c: Settings)
    requires AllLoadable(c)
    ensures AllLoadable(LoadLines(text, c))
    decreases |text|
  {
    if text != [] {
      var n := Find(text, '\n');
      var line, rest := text[..n], if n < |text| then text[n + 1..] else [];
      LineIsLoadable(c, line);
      LoadIsLoadable(rest, ApplyLine(c, line));
      assert LoadLines(text, c) == LoadLines(rest, ApplyLine(c, line));
    }
  }

  lemma KeptIff(s: string)
    requires Loadable(s)
    ensures Carried(s) && (Kept(s) == s <==> SurvivesText(s))
  {
    CStrOfPlain(s);
  }

  const BLANK: Settings := Settings([], [], [], false, 0, false, 0, false, [], [], 0)

  lemma ReloadedIff(c: Settings)
    requires AllLoadable(c)
    ensures AllCarried(c) && (Reloaded(c) == c <==> Survives(c))
  {
    KeptIff(c.ifaceWan);
    KeptIff(c.ifaceLan);
    KeptIff(c.routerIp);
    KeptIff(c.poolStart);
    KeptIff(c.poolEnd);
  }

  ghost predicate RoundTrips(c: Settings) { forall c0 :: Load(Save(c), c0) == c }

  /** Saving and loading restores the settings, whatever was set before, if and only if every text has
      no newline, no NUL and no trailing carriage return and is shorter than 256, the prefix length is not
      negative, and the lease time fits 32 bits. */
  lemma RoundTripIff(c: Settings)
    ensures RoundTrips(c) <==> Survives(c)
  {
    if AllLoadable(c) {
      ReloadedIff(c);
      forall c0
        ensures Load(Save(c), c0) == Reloaded(c)
      {
        LoadAfterSave(c, c0);
      }
      assert RoundTrips(c) ==> Load(Save(c), BLANK) == c;
    } else {
      LoadIsLoadable(Buffered(Save(c)), BLANK);
      assert Load(Save(c), BLANK) != c;
    }
  }

  // ----- The file format -----

  /** What a file of one line, with this name and value, makes of the settings. */
  function LoadOne(name: string, v: string, c: Settings): Settings { Load(name + "=" + v + "\n", c) }

  /** It sets one key. */
  lemma LoadsLine(c: Settings, k: Key, v: string)
    requires Fits(v)
    ensures LoadOne(Name(k), v, c) == Set(c, k, Chop(v))
  {
    var line := Line(k, v);
    NamesArePlain(k);
    FieldLine(c, k, v);
    LoadOneLine(line, [], c);
    assert line + "\n" + [] == Name(k) + "=" + v + "\n";
    assert LoadLines([], Set(c, k, Chop(v))) == Set(c, k, Chop(v));
  }

  /** The names in the file. */
  lemma NamesInFile()
    ensures Name(IfaceWan) == "IFACE_WAN" && Name(IfaceLan) == "IFACE_LAN" && Name(RouterIp) == "ROUTER_IP"
    ensures Name(ApplyRouterIp) == "APPLY_ROUTER_IP_TO_LAN" && Name(PrefixLen) == "LAN_PREFIX_LEN"
    ensures Name(Acceleration) == "ENABLE_ACCELERATION" && Name(Threshold) == "LARGE_PACKET_THRESHOLD"
    ensures Name(EnableNat) == "enable_nat" && Name(PoolStart) == "DHCP_POOL_START"
    ensures Name(PoolEnd) == "DHCP_POOL_END" && Name(LeaseSeconds) == "DHCP_LEASE_SECONDS"
  {
  }

  /** A text is set as it stands, less one trailing carriage return. */
  lemma LoadsText(c: Settings, k: Key, v: string)
    requires Fits(v) && Text(k)
    ensures LoadOne(Name(k), v, c) == match k
                                      case IfaceWan => c.(ifaceWan := Chop(v))
                                      case IfaceLan => c.(ifaceLan := Chop(v))
                                      case RouterIp => c.(routerIp := Chop(v))
                                      case PoolStart => c.(poolStart := Chop(v))
                                      case _ => c.(poolEnd := Chop(v))
  {
    LoadsLine(c, k, v);
  }

  /** A flag is set by "true" and by "1", and cleared by anything else. */
  lemma LoadsFlag(c: Settings, k: Key, v: string)
    requires Fits(v) && (k.ApplyRouterIp? || k.Acceleration? || k.EnableNat?)
    ensures var on := Chop(v) == "true" || Chop(v) == "1";
            LoadOne(Name(k), v, c) == match k
                                      case ApplyRouterIp => c.(applyRouterIp := on)
                                      case Acceleration => c.(acceleration := on)
                                      case _ => c.(enableNat := on)
  {
    LoadsLine(c, k, v);
  }

  /** A number is what its leading digits say, or 0 if they are too many for 32 bits; the prefix length is
      taken as a signed number. */
  lemma LoadsNumber(c: Settings, k: Key, v: string, n: nat, rest: string)
    requires Fits(v) && (k.PrefixLen? || k.Threshold? || k.LeaseSeconds?)
    requires Chop(v) == Digits(n) + rest && (rest != [] ==> !('0' <= rest[0] <= '9'))
    ensures var m := if n < 0x1_0000_0000 then n else 0;
            var signed := if m < 0x8000_0000 then m else m - 0x1_0000_0000;
            LoadOne(Name(k), v, c) == match k
                                      case PrefixLen => c.(prefixLen := signed)
                                      case Threshold => c.(threshold := m)
                                      case _ => c.(lease := m)
  {
    LoadsLine(c, k, v);
    LeadingDigits(n, rest);
  }

  lemma RunOfDigits(ds: string, rest: string)
    requires forall i | 0 <= i < |ds| :: '0' <= ds[i] <= '9'
    requires rest != [] ==> !('0' <= rest[0] <= '9')
    ensures DigitRun(ds + rest) == |ds|
  {
    var s, i := ds + rest, DigitRun(ds + rest);
    assert forall k | 0 <= k < |ds| :: s[k] == ds[k];
    assert rest != [] ==> s[|ds|] == rest[0];
  }

  lemma LeadingDigits(n: nat, rest: string)
    requires rest != [] ==> !('0' <= rest[0] <= '9')
    ensures ParseU32(Digits(n) + rest) == if n < 0x1_0000_0000 then n else 0
  {
    var ds := Digits(n);
    RunOfDigits(ds, rest);
    assert (ds + rest)[..|ds|] == ds;
    DigitsValue(n);
  }

  lemma NoDigits(s: string)
    requires s != [] ==> !('0' <= s[0] <= '9')
    ensures ParseU32(s) == 0
  {
  }

  /** Lines that set nothing: empty ones, comments, lines without an equals sign or with nothing before it,
      those with 64 or more characters before it or 256 or more after it, and unknown names. */
  lemma IgnoredLines(c: Settings, line: string)
    ensures var l := Chop(line); var e := Find(l, '=');
            l == [] || l[0] == '#' || '=' !in l || e == 0 || e >= 64 || |l| - e - 1 >= 256
            || (forall k :: Name(k) != CStr(l[..e]))
            ==> ApplyLine(c, line) == c
  {
    var l := Chop(line);
    var e := Find(l, '=');
    if '=' !in l {
      assert e == |l|;
    } else if forall k :: Name(k) != CStr(l[..e]) {
      UnknownName(KEYS, CStr(l[..e]));
    }
  }

  /** Every other line sets its key; key and value end at a NUL, and may have any length below the caps. */
  lemma OtherLinesSet(c: Settings, line: string, key: string, value: string, k: Key)
    requires Chop(line) == key + ['='] + value && '=' !in key && key != [] && key[0] != '#'
    requires |key| < 64 && |value| < 256 && CStr(key) == Name(k)
    ensures ApplyLine(c, line) == Set(c, k, CStr(value))
  {
    ParsesRaw(key, value);
    AssignByName(c, k, CStr(value));
  }

  lemma ParsesRaw(key: string, value: string)
    requires '=' !in key && 0 < |key| < 64 && |value| < 256
    ensures ParseLine(key + ['='] + value) == Pair(CStr(key), CStr(value))
  {
    var l := key + ['='] + value;
    FindSkips(key, value, '=');
    assert l[..|key|] == key && l[|key| + 1..] == value;
  }

  lemma {:induction false} UnknownName(keys: seq<Key>, name: string)
    requires forall k :: Name(k) != name
    ensures Lookup(keys, name) == NoKey
  {
    if keys != [] {
      UnknownName(keys[1..], name);
    }
  }

  /** Only the first 8191 bytes of a file are read. */
  lemma OnlyTheBuffer(text: string, c: Settings)
    ensures Load(text, c) == LoadLines(if |text| <= 8191 then text else text[..8191], c)
  {
  }

  // ----- The program's own form -----

  class Config {
    var s: Settings

    constructor (initial: Settings)
      ensures s == initial
    {
      s := initial;
    }

    /** The line loop over the buffer that was read. */
    method LoadConfig(text: string)
      modifies this
      ensures s == Load(text, old(s))
    {
      var buf := Buffered(text);
      var p := 0;
      while p < |buf|
        invariant 0 <= p <= |buf|
        invariant LoadFrom(buf, p, s) == LoadFrom(buf, 0, old(s))
      {
        var n := Find(buf[p..], '\n');
        LineAt(buf, p, n, s);
        ApplyInPlace(buf[p..p + n]);
        p := if p + n < |buf| then p + n + 1 else |buf|;
      }
      LoadEnds(buf, s, old(s));
    }

    method ApplyInPlace(line: string)
      modifies this
      ensures s == ApplyLine(old(s), line)
    {
      var l := if |line| > 0 && line[|line| - 1] == '\r' then line[..|line| - 1] else line;
      if |l| > 0 && l[0] != '#' {
        var p := ParseLine(l);
        if p.Pair? {
          s := Assign(s, p.key, p.value);
        }
      }
    }
  }

  function LoadFrom(buf: string, p: nat, c: Settings): Settings
    requires p <= |buf|
  {
    LoadLines(buf[p..], c)
  }

  /** One step of the line loop, in terms of positions in the buffer. */
  lemma LineAt(buf: string, p: nat, n: nat, c: Settings)
    requires p < |buf| && n == Find(buf[p..], '\n')
    ensures LoadFrom(buf, p, c)
         == LoadFrom(buf, if p + n < |buf| then p + n + 1 else |buf|, ApplyLine(c, buf[p..p + n]))
  {
    assert buf[p..][..n] == buf[p..p + n];
    if p + n < |buf| {
      assert buf[p..][n + 1..] == buf[p + n + 1..];
    } else {
      assert buf[|buf|..] == [];
    }
  }

  lemma LoadEnds(buf: string, c: Settings, c0: Settings)
    ensures LoadFrom(buf, |buf|, c) == c && LoadFrom(buf, 0, c0) == LoadLines(buf, c0)
  {
    assert buf[0..] == buf && buf[|buf|..] == [];
  }
}
