/** What the cache answers, against the history of what it was taught. */
module ArpHistory {
  import opened Bytes
  import opened Layout
  import opened Arp

  /** arp_lookup and arp_update calls. */
  datatype Op = Query(ip: word) | Teach(ip: word, mac: mac)

  function Step(c: Cache, op: Op): Cache {
    match op
    case Query(ip) => AfterLookup(c, ip)
    case Teach(ip, m) => Learn(c, ip, m)
  }

  function Run(c: Cache, ops: seq<Op>): Cache {
    if ops == [] then c else Step(Run(c, ops[..|ops| - 1]), ops[|ops| - 1])
  }

  /** A call uses an address when it teaches it or finds it. */
  predicate Touches(c: Cache, op: Op) {
    op.Teach? || Answer(c, op.ip).Some?
  }

  /** A call that needs a new first-level entry while all eight are in use. */
  predicate Evicts(c: Cache, op: Op) {
    Touches(c, op) && !Has(c.l1, op.ip) && |c.l1| == L1_SIZE
  }

  function Evictions(c: Cache, ops: seq<Op>): nat {
    if ops == [] then 0
    else
      var before := ops[..|ops| - 1];
      Evictions(c, before) + if Evicts(Run(c, before), ops[|ops| - 1]) then 1 else 0
  }

  predicate Taught(ops: seq<Op>, ip: word) {
    exists m :: Teach(ip, m) in ops
  }

  // ---------------------------------------------------------------- lists

  lemma {:induction false} FindAppend(s: seq<Entry>, t: seq<Entry>, ip: word)
    ensures Find(s + t, ip) == if Has(s, ip) then Find(s, ip) else |s| + Find(t, ip)
  {
    if s == [] {
      assert s + t == t;
    } else {
      assert (s + t)[1..] == s[1..] + t;
      FindAppend(s[1..], t, ip);
    }
  }

  lemma SplitLast(s: seq<Entry>, ip: word)
    requires s != []
    ensures Has(s, ip) ==> Has(s[..|s| - 1], ip) || Has([s[|s| - 1]], ip)
  {
    assert s == s[..|s| - 1] + [s[|s| - 1]];
    FindAppend(s[..|s| - 1], [s[|s| - 1]], ip);
  }

  lemma FindOne(e: Entry, ip: word)
    ensures Find([e], ip) == if e.ip == ip then 0 else 1
  {
  }

  /** Membership after a touch. */
  lemma TouchHas(s: seq<Entry>, p: nat, e: Entry, ip: word)
    requires p < |s|
    ensures ip == e.ip ==> Find(Touch(s, p, e), ip) == 0
    ensures ip != e.ip && s[p].ip != ip ==> (Has(Touch(s, p, e), ip) <==> Has(s, ip))
    ensures ip != e.ip && s[p].ip != ip && Has(s, ip) ==>
              Touch(s, p, e)[Find(Touch(s, p, e), ip)] == s[Find(s, ip)]
              && Find(Touch(s, p, e), ip) == Find(s, ip) + if Find(s, ip) < p then 1 else 0
  {
    hide Find;
    var a, b := s[..p], s[p + 1..];
    FindOne(s[p], ip);
    FindOne(e, ip);
    assert s == a + ([s[p]] + b);
    assert Touch(s, p, e) == [e] + (a + b);
    FindAppend([e], a + b, ip);
    FindAppend(a, b, ip);
    FindAppend(a, [s[p]] + b, ip);
    FindAppend([s[p]], b, ip);
  }

  // ---------------------------------------------------------------- one call

  /** The entry a call leaves in front. */
  function Used(c: Cache, op: Op): Entry
    requires Touches(c, op)
  {
    match op
    case Query(ip) => Entry(ip, Answer(c, ip).value)
    case Teach(ip, m) => Entry(ip, m)
  }

  lemma StepForm(c: Cache, op: Op)
    ensures Step(c, op) ==
      if !Touches(c, op) then c
      else if Has(c.l1, op.ip) then c.(l1 := Touch(c.l1, Find(c.l1, op.ip), Used(c, op)))
      else Insert(c, Used(c, op))
    ensures Touches(c, op) ==> Used(c, op).ip == op.ip
  {
    if op.Query? && Has(c.l1, op.ip) {
      var p := Find(c.l1, op.ip);
      assert c.l1[p] == Used(c, op);
    }
  }

  predicate Bounded(c: Cache) {
    |c.l1| <= L1_SIZE && |c.l2| <= L2_SIZE
  }

  lemma {:induction false} RunBounded(c: Cache, ops: seq<Op>)
    requires Bounded(c)
    ensures Bounded(Run(c, ops))
    ensures c.l2 <= Run(c, ops).l2
  {
    if ops != [] {
      hide Answer;
      RunBounded(c, ops[..|ops| - 1]);
      StepForm(Run(c, ops[..|ops| - 1]), ops[|ops| - 1]);
    }
  }

  // ---------------------------------------------------------------- answers come from the history

  predicate AllTaught(c: Cache, ops: seq<Op>) {
    (forall e :: e in c.l1 ==> Teach(e.ip, e.mac) in ops) && (forall e :: e in c.l2 ==> Teach(e.ip, e.mac) in ops)
  }

  lemma {:induction false} EntriesWereTaught(ops: seq<Op>)
    ensures AllTaught(Run(EMPTY, ops), ops)
  {
    if ops != [] {
      var before, op := ops[..|ops| - 1], ops[|ops| - 1];
      EntriesWereTaught(before);
      assert ops == before + [op];
      StepKeepsTaught(Run(EMPTY, before), op, before);
    }
  }

  lemma StepKeepsTaught(c: Cache, op: Op, before: seq<Op>)
    requires AllTaught(c, before)
    ensures AllTaught(Step(c, op), before + [op])
  {
    StepForm(c, op);
    if Touches(c, op) {
      var e := Used(c, op);
      if op.Query? {
        AnswerIsEntry(c, op.ip);
      }
      assert Teach(e.ip, e.mac) in before + [op];
    }
  }

  lemma AnswerIsEntry(c: Cache, ip: word)
    requires Answer(c, ip).Some?
    ensures Entry(ip, Answer(c, ip).value) in c.l1 || Entry(ip, Answer(c, ip).value) in c.l2
  {
    if Has(c.l1, ip) {
      assert c.l1[Find(c.l1, ip)] == Entry(ip, Answer(c, ip).value);
    } else {
      assert c.l2[Find(c.l2, ip)] == Entry(ip, Answer(c, ip).value);
    }
  }

  /** Every MAC returned for an address was once taught for that address. */
  lemma AnswersWereTaught(ops: seq<Op>, ip: word)
    requires Answer(Run(EMPTY, ops), ip).Some?
    ensures Teach(ip, Answer(Run(EMPTY, ops), ip).value) in ops
  {
    EntriesWereTaught(ops);
    AnswerIsEntry(Run(EMPTY, ops), ip);
  }

  // ---------------------------------------------------------------- nothing is forgotten before the table overflows

  predicate Held(c: Cache, ip: word) { Has(c.l1, ip) || Has(c.l2, ip) }

  /** Each eviction fills one table slot until all 256 are used. */
  lemma {:induction false} TableCountsEvictions(ops: seq<Op>)
    ensures |Run(EMPTY, ops).l2| == if Evictions(EMPTY, ops) < L2_SIZE then Evictions(EMPTY, ops) else L2_SIZE
  {
    RunBounded(EMPTY, ops);
    if ops != [] {
      hide Answer;
      var before := ops[..|ops| - 1];
      RunBounded(EMPTY, before);
      TableCountsEvictions(before);
      StepForm(Run(EMPTY, before), ops[|ops| - 1]);
    }
  }

  lemma StepKeepsHeld(c: Cache, op: Op, ip: word)
    requires Bounded(c) && (Evicts(c, op) ==> |c.l2| < L2_SIZE)
    ensures Held(c, ip) ==> Held(Step(c, op), ip)
    ensures op.Teach? ==> Held(Step(c, op), op.ip)
  {
    StepForm(c, op);
    if Touches(c, op) {
      hide Answer;
      var e := Used(c, op);
      if Has(c.l1, op.ip) {
        TouchHas(c.l1, Find(c.l1, op.ip), e, ip);
        TouchHas(c.l1, Find(c.l1, op.ip), e, op.ip);
      } else {
        InsertHas(c, e, ip);
        InsertHas(c, e, op.ip);
      }
    }
  }

  lemma InsertHas(c: Cache, e: Entry, ip: word)
    requires |c.l1| == L1_SIZE ==> |c.l2| < L2_SIZE
    requires Bounded(c)
    ensures Held(c, ip) || e.ip == ip ==> Held(Insert(c, e), ip)
  {
    var n := |c.l1|;
    if n < L1_SIZE {
      FindAppend([e], c.l1, ip);
    } else {
      FindAppend([e], c.l1[..n - 1], ip);
      SplitLast(c.l1, ip);
      FindAppend(c.l2, [c.l1[n - 1]], ip);
    }
  }

  lemma {:induction false} TaughtIsHeld(ops: seq<Op>, ip: word)
    requires Evictions(EMPTY, ops) <= L2_SIZE && Taught(ops, ip)
    ensures Held(Run(EMPTY, ops), ip)
  {
    var m :| Teach(ip, m) in ops;
    var before, op := ops[..|ops| - 1], ops[|ops| - 1];
    assert ops == before + [op];
    RunBounded(EMPTY, before);
    TableCountsEvictions(before);
    StepKeepsHeld(Run(EMPTY, before), op, ip);
    if op != Teach(ip, m) {
      assert Teach(ip, m) in before;
      TaughtIsHeld(before, ip);
    }
  }

  /** While at most 256 entries have been evicted, exactly the addresses ever taught are found. */
  lemma FoundIffTaught(ops: seq<Op>, ip: word)
    requires Evictions(EMPTY, ops) <= L2_SIZE
    ensures Answer(Run(EMPTY, ops), ip).Some? <==> Taught(ops, ip)
  {
    if Taught(ops, ip) {
      TaughtIsHeld(ops, ip);
    }
    if Answer(Run(EMPTY, ops), ip).Some? {
      AnswersWereTaught(ops, ip);
    }
  }

  // ---------------------------------------------------------------- the plain map

  /** The map a cache with no limits would be. */
  function MapOf(ops: seq<Op>): map<word, mac> {
    if ops == [] then map[]
    else
      var m := MapOf(ops[..|ops| - 1]);
      match ops[|ops| - 1]
      case Query(_) => m
      case Teach(ip, v) => m[ip := v]
  }

  /** Nobody ever changes their MAC. */
  predicate Consistent(ops: seq<Op>) {
    forall i, j :: 0 <= i < |ops| && 0 <= j < |ops| && ops[i].Teach? && ops[j].Teach? && ops[i].ip == ops[j].ip
      ==> ops[i].mac == ops[j].mac
  }

  lemma {:induction false} MapIsTaught(ops: seq<Op>, ip: word)
    ensures ip in MapOf(ops) <==> Taught(ops, ip)
    ensures ip in MapOf(ops) ==> Teach(ip, MapOf(ops)[ip]) in ops
  {
    if ops != [] {
      var before, op := ops[..|ops| - 1], ops[|ops| - 1];
      assert ops == before + [op];
      MapIsTaught(before, ip);
      if Taught(ops, ip) {
        var m :| Teach(ip, m) in ops;
        assert op == Teach(ip, m) || Teach(ip, m) in before;
      }
      if ip in MapOf(before) {
        assert Teach(ip, MapOf(before)[ip]) in ops;
      }
      if op.Teach? {
        assert op == Teach(op.ip, op.mac) && op in ops;
      }
    }
  }

  /** With one MAC per address and at most 256 evictions, the cache is a plain map. */
  lemma ConsistentIsMap(ops: seq<Op>, ip: word)
    requires Consistent(ops) && Evictions(EMPTY, ops) <= L2_SIZE
    ensures Answer(Run(EMPTY, ops), ip) == if ip in MapOf(ops) then Some(MapOf(ops)[ip]) else None
  {
    FoundIffTaught(ops, ip);
    MapIsTaught(ops, ip);
    if ip in MapOf(ops) {
      AnswersWereTaught(ops, ip);
      var i :| 0 <= i < |ops| && ops[i] == Teach(ip, MapOf(ops)[ip]);
      var j :| 0 <= j < |ops| && ops[j] == Teach(ip, Answer(Run(EMPTY, ops), ip).value);
    }
  }

  // ---------------------------------------------------------------- exact LRU

  /** The addresses used by a run, in order of use. */
  function Log(c: Cache, ops: seq<Op>): seq<word> {
    if ops == [] then []
    else
      var before, op := ops[..|ops| - 1], ops[|ops| - 1];
      Log(c, before) + if Touches(Run(c, before), op) then [op.ip] else []
  }

  function Without(s: seq<word>, x: word): seq<word> {
    if s == [] then [] else (if s[0] == x then [] else [s[0]]) + Without(s[1..], x)
  }

  /** The distinct addresses of a log, the most recently used first. */
  function Recents(log: seq<word>): seq<word> {
    if log == [] then [] else [log[|log| - 1]] + Without(Recents(log[..|log| - 1]), log[|log| - 1])
  }

  function AtMost8(s: seq<word>): seq<word> {
    if |s| <= L1_SIZE then s else s[..L1_SIZE]
  }

  function Ips(s: seq<Entry>): (r: seq<word>)
    ensures |r| == |s|
    ensures forall i :: 0 <= i < |s| ==> r[i] == s[i].ip
  {
    seq(|s|, i requires 0 <= i < |s| => s[i].ip)
  }

  lemma {:induction false} WithoutPrefix(s: seq<word>, x: word, n: nat)
    requires n <= |s| && x !in s[..n]
    ensures Without(s, x) == s[..n] + Without(s[n..], x)
  {
    if n > 0 {
      assert s[0] in s[..n] && s[1..][..n - 1] == s[..n][1..] && s[1..][n - 1..] == s[n..];
      WithoutPrefix(s[1..], x, n - 1);
      assert s[..n] == [s[0]] + s[1..][..n - 1];
    } else {
      assert s[0..] == s && s[..0] == [];
    }
  }

  lemma {:induction false} WithoutAbsent(s: seq<word>, x: word)
    ensures x !in Without(s, x)
    ensures x !in s ==> Without(s, x) == s
    ensures forall y :: y in Without(s, x) ==> y in s
  {
    if s != [] {
      WithoutAbsent(s[1..], x);
    }
  }

  predicate NoRepeats(s: seq<word>) {
    forall i, j :: 0 <= i < j < |s| ==> s[i] != s[j]
  }

  lemma HeadApart(s: seq<word>)
    requires NoRepeats(s) && s != []
    ensures NoRepeats(s[1..]) && s[0] !in s[1..]
  {
  }

  lemma ConsNoRepeats(x: word, s: seq<word>)
    requires NoRepeats(s) && x !in s
    ensures NoRepeats([x] + s)
  {
  }

  lemma {:induction false} WithoutNoRepeats(s: seq<word>, x: word)
    requires NoRepeats(s)
    ensures NoRepeats(Without(s, x))
  {
    if s != [] {
      HeadApart(s);
      WithoutNoRepeats(s[1..], x);
      WithoutAbsent(s[1..], x);
      ConsNoRepeats(s[0], Without(s[1..], x));
    }
  }

  lemma {:induction false} RecentsDistinct(log: seq<word>)
    ensures NoRepeats(Recents(log))
  {
    if log != [] {
      var before, x := log[..|log| - 1], log[|log| - 1];
      RecentsDistinct(before);
      WithoutNoRepeats(Recents(before), x);
      WithoutAbsent(Recents(before), x);
    }
  }

  lemma AtOnce(s: seq<word>, p: nat)
    requires p < |s| && NoRepeats(s)
    ensures s[p] !in s[..p] && s[p] !in s[p + 1..]
  {
  }

  lemma WithoutPosition(s: seq<word>, p: nat)
    requires p < |s| && NoRepeats(s)
    ensures Without(s, s[p]) == s[..p] + s[p + 1..]
  {
    AtOnce(s, p);
    hide NoRepeats;
    WithoutPrefix(s, s[p], p);
    assert s[p..][1..] == s[p + 1..];
    WithoutAbsent(s[p + 1..], s[p]);
    assert [] + s[p + 1..] == s[p + 1..];
  }

  /** The addresses of a first level after one of them, or a new one, is used. */
  lemma TouchIps(s: seq<Entry>, p: nat, e: Entry)
    requires p < |s|
    ensures Ips(Touch(s, p, e)) == [e.ip] + Ips(s)[..p] + Ips(s)[p + 1..]
  {
  }

  lemma InsertIps(c: Cache, e: Entry)
    requires |c.l1| <= L1_SIZE
    ensures Ips(Insert(c, e).l1) == [e.ip] + if |c.l1| < L1_SIZE then Ips(c.l1) else Ips(c.l1)[..L1_SIZE - 1]
  {
  }

  /** Using address x in a cache whose first level is the eight most recent of s. */
  lemma UseIsRecency(c: Cache, e: Entry, s: seq<word>)
    requires NoRepeats(s) && Ips(c.l1) == AtMost8(s)
    ensures Ips((if Has(c.l1, e.ip) then c.(l1 := Touch(c.l1, Find(c.l1, e.ip), e)) else Insert(c, e)).l1)
         == AtMost8([e.ip] + Without(s, e.ip))
  {
    hide Ips, Touch, Insert, NoRepeats;
    var n := |c.l1|;
    var x := e.ip;
    if Has(c.l1, x) {
      var p := Find(c.l1, x);
      assert s[p] == Ips(c.l1)[p] == x;
      WithoutPosition(s, p);
      TouchIps(c.l1, p, e);
      CutTail(x, s, p, n);
    } else {
      InsertIps(c, e);
      assert s[..n] == Ips(c.l1);
      NotAmong(c.l1, x);
      WithoutPrefix(s, x, n);
      if n < L1_SIZE {
        assert s[n..] == [] && s[..n] + Without([], x) == s;
      } else {
        assert AtMost8([x] + (s[..n] + Without(s[n..], x))) == [x] + s[..n][..L1_SIZE - 1];
      }
    }
  }

  lemma CutCons(x: word, s: seq<word>, p: nat, n: nat)
    requires p < n <= |s|
    ensures [x] + s[..n][..p] + s[..n][p + 1..] == ([x] + (s[..p] + s[p + 1..]))[..n]
  {
    var l, r := [x] + s[..n][..p] + s[..n][p + 1..], [x] + (s[..p] + s[p + 1..]);
    forall i | 0 <= i < n ensures l[i] == r[i] {
    }
  }

  lemma CutTail(x: word, s: seq<word>, p: nat, n: nat)
    requires p < n && n == |AtMost8(s)|
    ensures [x] + s[..n][..p] + s[..n][p + 1..] == AtMost8([x] + (s[..p] + s[p + 1..]))
  {
    if |s| <= L1_SIZE {
      assert s[..n] == s;
    } else {
      CutCons(x, s, p, n);
    }
  }

  lemma NotAmong(s: seq<Entry>, x: word)
    requires !Has(s, x)
    ensures x !in Ips(s)
  {
  }

  /** In every reachable state the first level holds the eight most recently used addresses, newest first: a full
      level gives up exactly the least recently used one. */
  lemma {:induction false} RecencyExact(ops: seq<Op>)
    ensures Ips(Run(EMPTY, ops).l1) == AtMost8(Recents(Log(EMPTY, ops)))
  {
    if ops != [] {
      hide Answer, Touch, Insert, AtMost8, Ips;
      var before, op := ops[..|ops| - 1], ops[|ops| - 1];
      var c := Run(EMPTY, before);
      var log := Log(EMPTY, before);
      RecencyExact(before);
      StepForm(c, op);
      if Touches(c, op) {
        RecentsDistinct(log);
        UseIsRecency(c, Used(c, op), Recents(log));
        assert Log(EMPTY, ops) == log + [op.ip] && (log + [op.ip])[..|log|] == log;
      } else {
        assert Log(EMPTY, ops) == log;
      }
    } else {
      assert Ips([]) == [] == AtMost8([]);
    }
  }

  // ---------------------------------------------------------------- how long a fresh MAC is returned

  /** The other addresses used since ip was last used. */
  function Since(c: Cache, ops: seq<Op>, ip: word): set<word> {
    if ops == [] then {}
    else
      var before, op := ops[..|ops| - 1], ops[|ops| - 1];
      if !Touches(Run(c, before), op) then Since(c, before, ip)
      else if op.ip == ip then {}
      else Since(c, before, ip) + {op.ip}
  }

  predicate Distinct(s: seq<Entry>) { NoRepeats(Ips(s)) }

  /** ip stands behind exactly the addresses of t, or has been pushed out by eight of them. */
  predicate Behind(s: seq<Entry>, ip: word, t: set<word>) {
    if Has(s, ip) then t == (set i | 0 <= i < Find(s, ip) :: s[i].ip) else |t| >= L1_SIZE
  }

  lemma {:induction false} PrefixSize(s: seq<Entry>, p: nat)
    requires p <= |s| && Distinct(s)
    ensures |set i | 0 <= i < p :: s[i].ip| == p
  {
    if p > 0 {
      var t := set i | 0 <= i < p - 1 :: s[i].ip;
      PrefixSize(s, p - 1);
      assert Ips(s)[p - 1] == s[p - 1].ip;
      assert s[p - 1].ip !in t by {
        forall i | 0 <= i < p - 1 ensures s[i].ip != s[p - 1].ip {
          assert Ips(s)[i] != Ips(s)[p - 1];
        }
      }
      assert (set i | 0 <= i < p :: s[i].ip) == t + {s[p - 1].ip};
    }
  }

  lemma MovedNoRepeats(s: seq<word>, p: nat)
    requires NoRepeats(s) && p < |s|
    ensures NoRepeats([s[p]] + s[..p] + s[p + 1..])
  {
    var t := [s[p]] + s[..p] + s[p + 1..];
    forall i, j | 0 <= i < j < |t| ensures t[i] != t[j] {
      var i' := if i == 0 then p else if i <= p then i - 1 else i;
      var j' := if j <= p then j - 1 else j;
      assert t[i] == s[i'] && t[j] == s[j'] && i' != j';
    }
  }

  lemma CutNoRepeats(s: seq<word>, n: nat)
    requires NoRepeats(s) && n <= |s|
    ensures NoRepeats(s[..n])
  {
  }

  lemma StepKeepsDistinct(c: Cache, op: Op)
    requires Distinct(c.l1) && Bounded(c)
    ensures Distinct(Step(c, op).l1)
  {
    hide Answer, Ips, NoRepeats, Touch, Insert;
    StepForm(c, op);
    if Touches(c, op) {
      var e := Used(c, op);
      var s := Ips(c.l1);
      if Has(c.l1, op.ip) {
        assert s[Find(c.l1, op.ip)] == op.ip;
        TouchIps(c.l1, Find(c.l1, op.ip), e);
        MovedNoRepeats(s, Find(c.l1, op.ip));
      } else {
        var n := if |s| < L1_SIZE then |s| else L1_SIZE - 1;
        NotAmong(c.l1, op.ip);
        InsertIps(c, e);
        CutNoRepeats(s, n);
        assert s[..|s|] == s;
        ConsNoRepeats(op.ip, s[..n]);
      }
    }
  }

  lemma {:induction false} RunDistinct(c: Cache, ops: seq<Op>)
    requires Distinct(c.l1) && Bounded(c)
    ensures Distinct(Run(c, ops).l1)
  {
    if ops != [] {
      hide Distinct;
      RunDistinct(c, ops[..|ops| - 1]);
      RunBounded(c, ops[..|ops| - 1]);
      StepKeepsDistinct(Run(c, ops[..|ops| - 1]), ops[|ops| - 1]);
    }
  }

  /** The effect of one use on what stands before ip. */
  lemma UseKeepsBehind(c: Cache, e: Entry, ip: word, t: set<word>)
    requires Distinct(c.l1) && Bounded(c) && Behind(c.l1, ip, t) && e.ip != ip
    ensures Behind((if Has(c.l1, e.ip) then c.(l1 := Touch(c.l1, Find(c.l1, e.ip), e)) else Insert(c, e)).l1,
                   ip, t + {e.ip})
  {
    if !Has(c.l1, ip) {
      SetGrows(t, e.ip);
    }
    if Has(c.l1, e.ip) {
      TouchBehind(c.l1, Find(c.l1, e.ip), e, ip, t);
    } else {
      InsertBehind(c, e, ip, t);
    }
  }

  lemma SetGrows(t: set<word>, x: word)
    ensures |t + {x}| >= |t|
    ensures x !in t ==> |t + {x}| == |t| + 1
  {
    if x in t {
      assert t + {x} == t;
    }
  }

  lemma TouchMoves(s: seq<Entry>, p: nat, e: Entry)
    requires p < |s|
    ensures |Touch(s, p, e)| == |s| && Touch(s, p, e)[0] == e
    ensures forall i :: 0 < i < |s| ==> Touch(s, p, e)[i] == s[if i <= p then i - 1 else i]
  {
  }

  lemma TouchBehind(s: seq<Entry>, p: nat, e: Entry, ip: word, t: set<word>)
    requires p < |s| && s[p].ip == e.ip != ip && Behind(s, ip, t)
    requires !Has(s, ip) ==> |t + {e.ip}| >= L1_SIZE
    ensures Behind(Touch(s, p, e), ip, t + {e.ip})
  {
    hide Touch, Find;
    TouchHas(s, p, e, ip);
    TouchMoves(s, p, e);
    if Has(s, ip) {
      var q, s', q' := Find(s, ip), Touch(s, p, e), Find(Touch(s, p, e), ip);
      forall x | x in t + {e.ip} ensures exists i :: 0 <= i < q' && s'[i].ip == x {
        if x == e.ip {
          assert s'[0].ip == x;
        } else {
          var i :| 0 <= i < q && s[i].ip == x;
          assert s'[if i < p then i + 1 else i].ip == x;
        }
      }
      forall i | 0 <= i < q' ensures s'[i].ip in t + {e.ip} {
        if i > 0 {
          assert s'[i] == s[if i <= p then i - 1 else i];
        }
      }
    }
  }

  lemma InsertBehind(c: Cache, e: Entry, ip: word, t: set<word>)
    requires Distinct(c.l1) && Bounded(c) && Behind(c.l1, ip, t) && e.ip != ip && !Has(c.l1, e.ip)
    requires !Has(c.l1, ip) ==> |t + {e.ip}| >= L1_SIZE
    ensures Behind(Insert(c, e).l1, ip, t + {e.ip})
  {
    var s := c.l1;
    var n := if |s| < L1_SIZE then |s| else L1_SIZE - 1;
    var q := Find(s, ip);
    assert Insert(c, e).l1 == [e] + s[..n];
    FindCons(s, n, e, ip);
    if q < n {
      ConsBehind(s, n, e, ip, t);
    } else if q < |s| {
      PrefixSize(s, q);
      assert e.ip !in t;
      SetGrows(t, e.ip);
    }
  }

  lemma FindCons(s: seq<Entry>, n: nat, e: Entry, ip: word)
    requires n <= |s| && e.ip != ip
    ensures Find([e] + s[..n], ip) == 1 + if Find(s, ip) < n then Find(s, ip) else n
  {
    assert s == s[..n] + s[n..];
    FindAppend([e], s[..n], ip);
    FindAppend(s[..n], s[n..], ip);
  }

  lemma ConsBehind(s: seq<Entry>, n: nat, e: Entry, ip: word, t: set<word>)
    requires Find(s, ip) < n <= |s| && Behind(s, ip, t) && e.ip != ip
    ensures Behind([e] + s[..n], ip, t + {e.ip})
  {
    hide Find;
    FindCons(s, n, e, ip);
    var q, s' := Find(s, ip), [e] + s[..n];
    forall x | x in t + {e.ip} ensures exists i :: 0 <= i < q + 1 && s'[i].ip == x {
      if x == e.ip {
        assert s'[0].ip == x;
      } else {
        var i :| 0 <= i < q && s[i].ip == x;
        assert s'[i + 1].ip == x;
      }
    }
    forall i | 0 <= i < q + 1 ensures s'[i].ip in t + {e.ip} {
      if i > 0 {
        assert s'[i] == s[i - 1];
      }
    }
  }

  /** From a state that has just used ip: it is in the first level exactly while fewer than eight other addresses
      have been used since its last use. */
  lemma {:induction false} PresentIffFewSince(c: Cache, ops: seq<Op>, ip: word)
    requires Distinct(c.l1) && Bounded(c) && Has(c.l1, ip) && Find(c.l1, ip) == 0
    ensures Behind(Run(c, ops).l1, ip, Since(c, ops, ip))
    ensures Has(Run(c, ops).l1, ip) <==> |Since(c, ops, ip)| < L1_SIZE
  {
    if ops == [] {
      PrefixSize(c.l1, 0);
    } else {
      var before, op := ops[..|ops| - 1], ops[|ops| - 1];
      var d := Run(c, before);
      PresentIffFewSince(c, before, ip);
      RunDistinct(c, before);
      RunBounded(c, before);
      StepKeepsBehind(d, op, ip, Since(c, before, ip));
    }
    RunDistinct(c, ops);
    if Has(Run(c, ops).l1, ip) {
      RunBounded(c, ops);
      PrefixSize(Run(c, ops).l1, Find(Run(c, ops).l1, ip));
    }
  }

  lemma StepKeepsBehind(c: Cache, op: Op, ip: word, t: set<word>)
    requires Distinct(c.l1) && Bounded(c) && Behind(c.l1, ip, t)
    ensures Behind(Step(c, op).l1, ip, if !Touches(c, op) then t else if op.ip == ip then {} else t + {op.ip})
  {
    StepForm(c, op);
    if Touches(c, op) {
      var e := Used(c, op);
      if op.ip != ip {
        UseKeepsBehind(c, e, ip, t);
      } else {
        assert Step(c, op).l1[0] == e;
        FindIs(Step(c, op).l1, ip, 0);
      }
    }
  }

  /** A taught MAC is in front at once. */
  lemma TeachInFront(c: Cache, ip: word, m: mac)
    ensures Find(Learn(c, ip, m).l1, ip) == 0 && Has(Learn(c, ip, m).l1, ip)
    ensures Learn(c, ip, m).l1[0] == Entry(ip, m)
  {
    FindIs(Learn(c, ip, m).l1, ip, 0);
  }

  lemma StepKeepsMac(c: Cache, op: Op, ip: word, m: mac)
    requires Has(c.l1, ip) && c.l1[Find(c.l1, ip)].mac == m && (op.Teach? ==> op.ip != ip)
    requires Has(Step(c, op).l1, ip)
    ensures Step(c, op).l1[Find(Step(c, op).l1, ip)].mac == m
  {
    StepForm(c, op);
    if Touches(c, op) {
      var e := Used(c, op);
      if Has(c.l1, op.ip) {
        TouchHas(c.l1, Find(c.l1, op.ip), e, ip);
        if op.ip == ip {
          assert e == Entry(ip, m);
        }
      } else {
        var n := if |c.l1| < L1_SIZE then |c.l1| else |c.l1| - 1;
        assert Step(c, op).l1 == [e] + c.l1[..n];
        FindCons(c.l1, n, e, ip);
      }
    }
  }

  /** Once an address is in the table, its table answer never changes again: copies are appended behind it and the
      scan stops at the first. */
  lemma TableAnswerFrozen(c: Cache, ops: seq<Op>, ip: word)
    requires Bounded(c) && Has(c.l2, ip) && !Has(Run(c, ops).l1, ip)
    ensures Answer(Run(c, ops), ip) == Some(c.l2[Find(c.l2, ip)].mac)
  {
    RunBounded(c, ops);
    var t := Run(c, ops).l2;
    assert t == c.l2 + t[|c.l2|..];
    FindAppend(c.l2, t[|c.l2|..], ip);
  }

  // ---------------------------------------------------------------- exactly when the newest MAC is returned

  /** What the table says about ip. */
  function TableMac(c: Cache, ip: word): Option<mac> {
    if Has(c.l2, ip) then Some(c.l2[Find(c.l2, ip)].mac) else None
  }

  /** At no time had eight other addresses been used since ip was. */
  predicate StaysIn(c: Cache, ops: seq<Op>, ip: word) {
    forall k :: 0 <= k <= |ops| ==> |Since(c, ops[..k], ip)| < L1_SIZE
  }

  lemma StaysInSnoc(c: Cache, ops: seq<Op>, ip: word)
    requires ops != []
    ensures StaysIn(c, ops, ip) <==> StaysIn(c, ops[..|ops| - 1], ip) && |Since(c, ops, ip)| < L1_SIZE
  {
    hide Since;
    var before := ops[..|ops| - 1];
    assert ops[..|ops|] == ops;
    assert forall k :: 0 <= k <= |before| ==> before[..k] == ops[..k];
  }

  /** r is the number of calls after which ip first had eight other addresses used since its own last use. */
  predicate OutAt(c: Cache, ops: seq<Op>, ip: word, r: Option<nat>) {
    match r
    case None => StaysIn(c, ops, ip)
    case Some(n) =>
      0 < n <= |ops| && StaysIn(c, ops[..n - 1], ip) && |Since(c, ops[..n], ip)| >= L1_SIZE && !StaysIn(c, ops, ip)
  }

  lemma OutSnoc(c: Cache, ops: seq<Op>, ip: word, out: Option<nat>)
    requires ops != [] && OutAt(c, ops[..|ops| - 1], ip, out)
    ensures OutAt(c, ops, ip, if out.Some? then out else if |Since(c, ops, ip)| >= L1_SIZE then Some(|ops|) else None)
  {
    hide Since, StaysIn;
    var before := ops[..|ops| - 1];
    StaysInSnoc(c, ops, ip);
    assert ops[..|ops|] == ops;
    if out.Some? {
      var n := out.value;
      assert before[..n] == ops[..n] && before[..n - 1] == ops[..n - 1];
    }
  }

  lemma NoneOut(c: Cache, ip: word)
    ensures OutAt(c, [], ip, None)
  {
  }

  /** The call after which ip is first out, if there is one. */
  function PushedOut(c: Cache, ops: seq<Op>, ip: word): (r: Option<nat>)
    ensures OutAt(c, ops, ip, r)
    decreases |ops|
  {
    hide Since, OutAt;
    if ops == [] then
      NoneOut(c, ip);
      None
    else
      var out := PushedOut(c, ops[..|ops| - 1], ip);
      OutSnoc(c, ops, ip, out);
      if out.Some? then out else if |Since(c, ops, ip)| >= L1_SIZE then Some(|ops|) else None
  }

  /** The first level still holds the taught MAC, the table what it held. */
  predicate Fresh(c: Cache, ip: word, m: mac, table: Option<mac>) {
    Has(c.l1, ip) && c.l1[Find(c.l1, ip)].mac == m && TableMac(c, ip) == table
  }

  /** The table's word on ip is final: any first-level entry is a copy of it, and where it has none it is full. */
  predicate Settled(c: Cache, ip: word, table: Option<mac>) {
    && TableMac(c, ip) == table
    && (Has(c.l1, ip) ==> table == Some(c.l1[Find(c.l1, ip)].mac))
    && (table.None? ==> |c.l2| == L2_SIZE)
  }

  /** What the table says once a taught MAC has left the first level. */
  function Settlement(table: Option<mac>, m: mac, room: bool): Option<mac> {
    if table.Some? then table else if room then Some(m) else None
  }

  lemma TableGrows(c: Cache, d: Cache, e: Entry, ip: word)
    requires d.l2 == c.l2 + [e]
    ensures TableMac(d, ip) == if Has(c.l2, ip) then TableMac(c, ip) else if e.ip == ip then Some(e.mac) else None
  {
    FindAppend(c.l2, [e], ip);
    FindOne(e, ip);
  }

  /** The entry a full level gives up is that of ip only if ip leaves, and then it carries ip's MAC. */
  lemma LastIs(s: seq<Entry>, ip: word)
    requires |s| == L1_SIZE && Distinct(s)
    ensures s[|s| - 1].ip == ip ==> Has(s, ip) && Find(s, ip) == |s| - 1
    ensures Has(s, ip) && Find(s, ip) == |s| - 1 ==> s[|s| - 1].ip == ip
  {
    if s[|s| - 1].ip == ip {
      forall i | 0 <= i < |s| - 1 ensures s[i].ip != ip {
        assert Ips(s)[i] != Ips(s)[|s| - 1];
      }
      FindIs(s, ip, |s| - 1);
    }
  }

  /** One use of another address, or a lookup of ip itself, while ip is fresh. */
  lemma StepFresh(c: Cache, op: Op, ip: word, m: mac, table: Option<mac>)
    requires Distinct(c.l1) && Bounded(c) && Fresh(c, ip, m, table) && (op.Teach? ==> op.ip != ip)
    ensures if Has(Step(c, op).l1, ip) then Fresh(Step(c, op), ip, m, table)
            else Settled(Step(c, op), ip, Settlement(table, m, |c.l2| < L2_SIZE))
  {
    hide Distinct, Answer;
    var d := Step(c, op);
    StepForm(c, op);
    if Has(d.l1, ip) {
      StepKeepsMac(c, op, ip, m);
    }
    if Evicts(c, op) {
      LastIs(c.l1, ip);
      FindCons(c.l1, |c.l1| - 1, Used(c, op), ip);
      if |c.l2| < L2_SIZE {
        TableGrows(c, d, c.l1[|c.l1| - 1], ip);
      }
    } else if Touches(c, op) {
      NotEvicted(c, op, ip);
    }
  }

  lemma NotEvicted(c: Cache, op: Op, ip: word)
    requires Bounded(c) && Touches(c, op) && !Evicts(c, op) && Has(c.l1, ip)
    ensures Has(Step(c, op).l1, ip) && Step(c, op).l2 == c.l2
  {
    hide Answer;
    StepForm(c, op);
    var e := Used(c, op);
    if Has(c.l1, op.ip) {
      TouchHas(c.l1, Find(c.l1, op.ip), e, ip);
    } else if e.ip != ip {
      assert c.l1[..|c.l1|] == c.l1;
      FindCons(c.l1, |c.l1|, e, ip);
    }
  }

  /** Nothing but teaching ip changes a settled answer. */
  lemma StepSettled(c: Cache, op: Op, ip: word, table: Option<mac>)
    requires Distinct(c.l1) && Bounded(c) && Settled(c, ip, table) && (op.Teach? ==> op.ip != ip)
    ensures Settled(Step(c, op), ip, table)
  {
    if op.ip == ip {
      SettledLookup(c, op, ip, table);
    } else {
      SettledOther(c, op, ip, table);
    }
  }

  lemma SettledLookup(c: Cache, op: Op, ip: word, table: Option<mac>)
    requires Distinct(c.l1) && Bounded(c) && Settled(c, ip, table) && op == Query(ip)
    ensures Settled(Step(c, op), ip, table)
  {
    hide Distinct;
    var d := Step(c, op);
    StepForm(c, op);
    if Touches(c, op) {
      var e := Used(c, op);
      assert d.l1[0] == e == Entry(ip, table.value);
      FindIs(d.l1, ip, 0);
      if Evicts(c, op) && |c.l2| < L2_SIZE {
        TableGrows(c, d, c.l1[|c.l1| - 1], ip);
      }
    }
  }

  lemma FoundAt(s: seq<Entry>, ip: word)
    requires Has(s, ip)
    ensures s[Find(s, ip)].ip == ip
  {
  }

  lemma SettledOther(c: Cache, op: Op, ip: word, table: Option<mac>)
    requires Distinct(c.l1) && Bounded(c) && Settled(c, ip, table) && op.ip != ip
    ensures Settled(Step(c, op), ip, table)
  {
    hide Distinct, Answer, Find;
    var d := Step(c, op);
    StepForm(c, op);
    if Touches(c, op) {
      var e := Used(c, op);
      if Has(c.l1, op.ip) {
        FoundAt(c.l1, op.ip);
        TouchHas(c.l1, Find(c.l1, op.ip), e, ip);
      } else {
        var n := if |c.l1| < L1_SIZE then |c.l1| else L1_SIZE - 1;
        FindCons(c.l1, n, e, ip);
        assert d.l1 == [e] + c.l1[..n] by {
          assert c.l1[..|c.l1|] == c.l1;
        }
        assert Has(d.l1, ip) ==> d.l1[Find(d.l1, ip)] == c.l1[Find(c.l1, ip)];
        if Evicts(c, op) && |c.l2| < L2_SIZE {
          TableGrows(c, d, c.l1[|c.l1| - 1], ip);
        }
      }
    }
  }

  /** The two phases of a run that does not teach ip again. */
  lemma {:induction false} Phases(d: Cache, ops: seq<Op>, ip: word, m: mac, table: Option<mac>)
    requires Distinct(d.l1) && Bounded(d) && Fresh(d, ip, m, table) && Find(d.l1, ip) == 0
    requires forall v :: Teach(ip, v) !in ops
    ensures var out := PushedOut(d, ops, ip);
      if out.None? then Fresh(Run(d, ops), ip, m, table)
      else Settled(Run(d, ops), ip, Settlement(table, m, |Run(d, ops[..out.value - 1]).l2| < L2_SIZE))
    decreases |ops|
  {
    hide Fresh, Settled, Step, Since, Distinct, Settlement;
    if ops != [] {
      var before, op := ops[..|ops| - 1], ops[|ops| - 1];
      assert ops == before + [op] && op in ops;
      Phases(d, before, ip, m, table);
      RunDistinct(d, before);
      RunBounded(d, before);
      var out := PushedOut(d, before, ip);
      if out.Some? {
        StepSettled(Run(d, before), op, ip, Settlement(table, m, |Run(d, before[..out.value - 1]).l2| < L2_SIZE));
        assert before[..out.value - 1] == ops[..out.value - 1];
      } else {
        StepFresh(Run(d, before), op, ip, m, table);
        InFirstLevel(d, ip, m, table);
        OutWhen(d, ops, ip);
      }
    }
  }

  lemma InFirstLevel(d: Cache, ip: word, m: mac, table: Option<mac>)
    requires Fresh(d, ip, m, table)
    ensures Has(d.l1, ip)
  {
  }

  /** The call after which ip is first out of the first level is the one that pushed it out. */
  lemma OutWhen(d: Cache, ops: seq<Op>, ip: word)
    requires Distinct(d.l1) && Bounded(d) && Has(d.l1, ip) && Find(d.l1, ip) == 0
    requires ops != [] && PushedOut(d, ops[..|ops| - 1], ip).None?
    ensures PushedOut(d, ops, ip) == if Has(Run(d, ops).l1, ip) then None else Some(|ops|)
  {
    hide Since, Step;
    PresentIffFewSince(d, ops, ip);
  }

  /** Exactly when the newest MAC is returned, over every run that does not teach the address again, lookups of it
      included. If the table holds the address with another MAC: exactly while the address has never had eight others
      used since its own last use; afterwards the old MAC for ever. If the table holds it with the same MAC: always. If
      the table does not hold it: unless the table was full when the address first had to leave the first level. */
  lemma NewestReturnedIff(c: Cache, ip: word, m: mac, ops: seq<Op>)
    requires Distinct(c.l1) && Bounded(c)
    requires forall v :: Teach(ip, v) !in ops
    ensures var d := Learn(c, ip, m);
      var out := PushedOut(d, ops, ip);
      && (out.None? <==> forall k :: 0 <= k <= |ops| ==> |Since(d, ops[..k], ip)| < L1_SIZE)
      && (Answer(Run(d, ops), ip) == Some(m) <==>
            (out.None? || (if Has(c.l2, ip) then TableMac(c, ip) == Some(m)
                           else |Run(d, ops[..out.value - 1]).l2| < L2_SIZE)))
      && (out.Some? && Has(c.l2, ip) ==> Answer(Run(d, ops), ip) == TableMac(c, ip))
  {
    var d := Learn(c, ip, m);
    var op := Teach(ip, m);
    TeachInFront(c, ip, m);
    StepKeepsDistinct(c, op);
    RunBounded(c, [op]);
    assert Run(c, [op]) == d by {
      assert [op][..0] == [];
    }
    TeachLeavesTable(c, ip, m);
    Phases(d, ops, ip, m, TableMac(c, ip));
  }

  lemma TeachLeavesTable(c: Cache, ip: word, m: mac)
    requires Distinct(c.l1) && Bounded(c)
    ensures TableMac(Learn(c, ip, m), ip) == TableMac(c, ip)
  {
    var op := Teach(ip, m);
    StepForm(c, op);
    if Evicts(c, op) && |c.l2| < L2_SIZE {
      LastIs(c.l1, ip);
      TableGrows(c, Learn(c, ip, m), c.l1[|c.l1| - 1], ip);
    }
  }

  /** A MAC just taught is the one returned as long as fewer than eight other addresses have been used since its own
      last use, whatever else is looked up or taught. */
  lemma FreshMacReturned(c: Cache, ip: word, m: mac, ops: seq<Op>)
    requires Distinct(c.l1) && Bounded(c)
    requires forall k :: 0 <= k <= |ops| ==> |Since(Learn(c, ip, m), ops[..k], ip)| < L1_SIZE
    requires forall v :: Teach(ip, v) !in ops
    ensures Answer(Run(Learn(c, ip, m), ops), ip) == Some(m)
  {
    NewestReturnedIff(c, ip, m, ops);
  }

  // ---------------------------------------------------------------- a stale answer

  /** Eight other addresses are taught. */
  const OTHERS: seq<Op> := [Teach(1, 1), Teach(2, 2), Teach(3, 3), Teach(4, 4), Teach(5, 5), Teach(6, 6), Teach(7, 7),
                            Teach(8, 8)]

  /** Address 0 is taught, eight others, address 0 again with another MAC, and the eight others again. */
  const RELEARNT: seq<Op> := [Teach(0, 1)] + OTHERS + ([Teach(0, 2)] + OTHERS)

  lemma {:induction false} RunAppend(c: Cache, a: seq<Op>, b: seq<Op>)
    ensures Run(c, a + b) == Run(Run(c, a), b)
    decreases |b|
  {
    if b == [] {
      assert a + b == a;
    } else {
      assert (a + b)[..|a + b| - 1] == a + b[..|b| - 1];
      RunAppend(c, a, b[..|b| - 1]);
    }
  }

  lemma {:induction false} TableAtMost(c: Cache, ops: seq<Op>)
    ensures |Run(c, ops).l2| <= |c.l2| + |ops|
  {
    if ops != [] {
      TableAtMost(c, ops[..|ops| - 1]);
    }
  }

  lemma {:induction false} SinceOthers(d: Cache, n: nat)
    requires n <= 8
    ensures |Since(d, OTHERS[..n], 0)| == n
    ensures forall x :: x in Since(d, OTHERS[..n], 0) ==> 1 <= x <= n
  {
    hide Run, OTHERS;
    OthersOther();
    if n > 0 {
      OtherAt(n - 1);
      assert OTHERS[..n][..n - 1] == OTHERS[..n - 1];
      SinceOthers(d, n - 1);
    }
  }

  lemma OtherAt(k: nat)
    requires k < 8
    ensures |OTHERS| == 8 && OTHERS[k] == Teach(k + 1, k + 1)
  {
    assert k == 0 || k == 1 || k == 2 || k == 3 || k == 4 || k == 5 || k == 6 || k == 7;
  }

  lemma RunTeach(c: Cache, m: mac)
    ensures Run(c, [Teach(0, m)]) == Learn(c, 0, m)
  {
    hide Learn;
    assert [Teach(0, m)][..0] == [];
  }

  lemma OthersOther()
    ensures |OTHERS| == 8 && OTHERS[..8] == OTHERS && forall v :: Teach(0, v) !in OTHERS
  {
  }

  /** Teaching address 0 and then the others leaves the table's word on it, or the MAC just taught where it had none. */
  lemma OthersPushOut(c: Cache, m: mac)
    requires Distinct(c.l1) && Bounded(c) && |c.l2| + 9 <= L2_SIZE
    ensures var e := Run(c, [Teach(0, m)] + OTHERS);
      && Distinct(e.l1) && Bounded(e) && !Has(e.l1, 0) && |e.l2| <= |c.l2| + 9
      && TableMac(e, 0) == Some(if Has(c.l2, 0) then TableMac(c, 0).value else m)
  {
    hide Since, Distinct, Run, PushedOut, Find, Learn, OTHERS;
    var d := Learn(c, 0, m);
    RunTeach(c, m);
    OthersOther();
    RunAppend(c, [Teach(0, m)], OTHERS);
    RunDistinct(c, [Teach(0, m)]);
    RunBounded(c, [Teach(0, m)]);
    RunDistinct(d, OTHERS);
    RunBounded(d, OTHERS);
    TeachInFront(c, 0, m);
    SinceOthers(d, 8);
    PresentIffFewSince(d, OTHERS, 0);
    NewestReturnedIff(c, 0, m, OTHERS);
    TableAtMost(c, [Teach(0, m)] + OTHERS);
    TableAtMost(c, [Teach(0, m)]);
    var out, e := PushedOut(d, OTHERS, 0), Run(d, OTHERS);
    assert out.Some? by {
      assert |Since(d, OTHERS[..8], 0)| == 8;
    }
    TableAtMost(d, OTHERS[..out.value - 1]);
    assert !Has(e.l1, 0) && Answer(e, 0) == TableMac(e, 0);
  }

  /** A stale MAC, concretely: address 0 was last taught MAC 2, and the answer is MAC 1. */
  lemma StaleReturned()
    ensures Answer(Run(EMPTY, RELEARNT), 0) == Some(1)
    ensures |RELEARNT| == 18 && RELEARNT[9] == Teach(0, 2) && forall v :: Teach(0, v) !in RELEARNT[10..]
  {
    hide Run, Distinct;
    OthersOther();
    assert RELEARNT[10..] == OTHERS;
    RunAppend(EMPTY, [Teach(0, 1)] + OTHERS, [Teach(0, 2)] + OTHERS);
    EmptyDistinct();
    OthersPushOut(EMPTY, 1);
    OthersPushOut(Run(EMPTY, [Teach(0, 1)] + OTHERS), 2);
  }

  lemma EmptyDistinct()
    ensures Distinct(EMPTY.l1) && Bounded(EMPTY)
  {
  }
}
