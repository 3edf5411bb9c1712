/** The enumeration bridge: code enumerations checked against master data in both directions,
    and enumerations generated from master data. */
module EnumBridge {
  import opened Text
  import opened Records

  /** The records that `list_records` returned for a bound master; only these fields matter. */
  datatype MasterValue = MasterValue(code: string, isActive: bool)

  /** A bound enumeration with its member values and its master's records, or none if they
      could not be retrieved. */
  datatype Binding = Binding(enumName: string, values: set<string>, master: Option<seq<MasterValue>>)

  datatype Violation =
    | RetrievalFailed(enumName: string)
    | MissingInCode(enumName: string, key: string)
    | MissingInMaster(enumName: string, key: string)

  datatype Summary = Summary(enumName: string, masterCount: nat, enumCount: nat,
                             missingInCode: set<string>, missingInMaster: set<string>)

  function ActiveCodes(records: seq<MasterValue>): set<string> {
    set i | 0 <= i < |records| && records[i].isActive :: records[i].code
  }

  function Normalized(s: set<string>): set<string> {
    set x | x in s :: Normalize(x)
  }

  /** Master values without a code path. */
  function NotInCode(b: Binding): set<string>
    requires b.master.Some?
  {
    Normalized(ActiveCodes(b.master.value)) - Normalized(b.values)
  }

  /** Code paths without a master value. */
  function NotInMaster(b: Binding): set<string>
    requires b.master.Some?
  {
    Normalized(b.values) - Normalized(ActiveCodes(b.master.value))
  }

  /** The violations that one binding deserves. */
  function Violations(b: Binding): nat {
    if b.master.None? then 1 else |NotInCode(b)| + |NotInMaster(b)|
  }

  function TotalViolations(bindings: seq<Binding>): nat {
    if bindings == [] then 0 else TotalViolations(bindings[..|bindings| - 1]) + Violations(bindings[|bindings| - 1])
  }

  predicate Ascending(keys: seq<string>) {
    forall i, j :: 0 <= i < j < |keys| ==> LexLeq(keys[i], keys[j]) && keys[i] != keys[j]
  }

  /** Each key once, in code-point order. */
  ghost predicate SortedKeys(keys: seq<string>, s: set<string>) {
    Ascending(keys) && |keys| == |s| && forall k :: k in keys <==> k in s
  }

  function InsertKey(keys: seq<string>, key: string): seq<string> {
    if keys == [] || LexLeq(key, keys[0]) then [key] + keys else [keys[0]] + InsertKey(keys[1..], key)
  }

  lemma {:induction false} InsertKeyAscends(keys: seq<string>, key: string)
    requires Ascending(keys) && key !in keys
    ensures Ascending(InsertKey(keys, key)) && |InsertKey(keys, key)| == |keys| + 1
    ensures forall k :: k in InsertKey(keys, key) <==> k == key || k in keys
  {
    if keys != [] {
      if LexLeq(key, keys[0]) {
        forall j | 0 <= j < |keys| ensures LexLeq(key, keys[j]) && key != keys[j] {
          if j > 0 { LexTransitive(key, keys[0], keys[j]); }
        }
      } else {
        var tail := InsertKey(keys[1..], key);
        InsertKeyAscends(keys[1..], key);
        LexTotal(key, keys[0]);
        forall j | 0 <= j < |tail| ensures LexLeq(keys[0], tail[j]) && keys[0] != tail[j] {
          if tail[j] != key { assert tail[j] in keys[1..]; }
        }
        assert keys == [keys[0]] + keys[1..];
      }
    }
  }

  /** `sorted(s)` */
  method SortKeys(s: set<string>) returns (keys: seq<string>)
    ensures SortedKeys(keys, s)
  {
    keys := [];
    var rest := s;
    while rest != {}
      invariant rest <= s && SortedKeys(keys, s - rest)
      decreases rest
    {
      var k :| k in rest;
      assert s - (rest - {k}) == (s - rest) + {k};
      InsertKeyAscends(keys, k);
      keys := InsertKey(keys, k);
      rest := rest - {k};
    }
    assert s - rest == s;
  }

  /** The violations of the first `n` bindings are exactly the keys missing on either side and
      the failed retrievals. */
  ghost predicate Exact(violations: seq<Violation>, bindings: seq<Binding>) {
    forall v :: v in violations <==> exists b :: b in bindings && Deserves(b, v)
  }

  predicate Deserves(b: Binding, v: Violation) {
    v.enumName == b.enumName
    && match v
       case RetrievalFailed(_) => b.master.None?
       case MissingInCode(_, key) => b.master.Some? && key in NotInCode(b)
       case MissingInMaster(_, key) => b.master.Some? && key in NotInMaster(b)
  }

  /** The parity report of one binding, or none if retrieval failed. */
  function SummaryOf(b: Binding): Option<Summary> {
    if b.master.None? then None
    else Some(Summary(b.enumName, |ActiveCodes(b.master.value)|, |b.values|, NotInCode(b), NotInMaster(b)))
  }

  /** A key is missing in the code if an active code of the master has it, up to case and white
      space, and no member value does; and conversely for the master. */
  lemma MissingKeys(b: Binding, key: string)
    requires b.master.Some?
    ensures
      var inMaster, inCode := IsMasterKey(b.master.value, key), IsCodeKey(b.values, key);
      && (Deserves(b, MissingInCode(b.enumName, key)) <==> inMaster && !inCode)
      && (Deserves(b, MissingInMaster(b.enumName, key)) <==> inCode && !inMaster)
      && (key in SummaryOf(b).value.missingInCode <==> inMaster && !inCode)
      && (key in SummaryOf(b).value.missingInMaster <==> inCode && !inMaster)
  {
    var codes := ActiveCodes(b.master.value);
    if i :| 0 <= i < |b.master.value| && b.master.value[i].isActive && Upper(Strip(b.master.value[i].code)) == key {
      assert b.master.value[i].code in codes;
    }
    assert key in Normalized(codes) <==> exists x :: x in codes && Normalize(x) == key;
    assert key in Normalized(b.values) <==> exists v :: v in b.values && Normalize(v) == key;
  }

  ghost predicate IsMasterKey(records: seq<MasterValue>, key: string) {
    exists i :: 0 <= i < |records| && records[i].isActive && Upper(Strip(records[i].code)) == key
  }

  ghost predicate IsCodeKey(values: set<string>, key: string) {
    exists v :: v in values && Upper(Strip(v)) == key
  }

  /** The number of records that a summary gives is that of different active codes. */
  lemma MasterCodesAreCounted(b: Binding) returns (codes: seq<string>)
    requires b.master.Some?
    ensures forall c :: c in codes <==>
      exists i :: 0 <= i < |b.master.value| && b.master.value[i].isActive && b.master.value[i].code == c
    ensures forall i, j :: 0 <= i < j < |codes| ==> codes[i] != codes[j]
    ensures SummaryOf(b).value.masterCount == |codes| && SummaryOf(b).value.enumCount == |b.values|
  {
    codes := InSomeOrder(ActiveCodes(b.master.value));
  }

  lemma {:induction false} InSomeOrder(s: set<string>) returns (q: seq<string>)
    ensures |q| == |s| && (forall x :: x in q <==> x in s) && forall i, j :: 0 <= i < j < |q| ==> q[i] != q[j]
  {
    q := [];
    if s != {} {
      var x :| x in s;
      q := InSomeOrder(s - {x});
      q := q + [x];
    }
  }

  /** Keys missing in the code come first, and each kind is in code-point order. */
  predicate InOrder(violations: seq<Violation>) {
    forall i, j :: 0 <= i < j < |violations| ==> Before(violations[i], violations[j])
  }

  predicate Before(v: Violation, w: Violation) {
    match (v, w)
    case (MissingInCode(_, a), MissingInCode(_, b)) => LexLeq(a, b) && a != b
    case (MissingInMaster(_, a), MissingInMaster(_, b)) => LexLeq(a, b) && a != b
    case (MissingInCode(_, _), MissingInMaster(_, _)) => true
    case _ => false
  }

  /** The checks of one binding. */
  method CheckBinding(b: Binding) returns (violations: seq<Violation>, summary: Option<Summary>)
    ensures |violations| == Violations(b)
    ensures forall v :: v in violations <==> Deserves(b, v)
    ensures InOrder(violations)
    ensures summary == SummaryOf(b)
  {
    if b.master.None? {
      return [RetrievalFailed(b.enumName)], None;
    }
    var inMaster, inCode := Normalized(ActiveCodes(b.master.value)), Normalized(b.values);
    var missingInCode := SortKeys(inMaster - inCode);
    var missingInMaster := SortKeys(inCode - inMaster);
    violations := MissingFrom(b.enumName, missingInCode, missingInMaster);
    ListedExactly(b, missingInCode, missingInMaster);
    summary := Some(Summary(b.enumName, |ActiveCodes(b.master.value)|, |b.values|, inMaster - inCode,
                            inCode - inMaster));
  }

  /** The violations of one binding, given the sorted keys missing on either side. */
  function MissingFrom(enumName: string, inCode: seq<string>, inMaster: seq<string>): seq<Violation> {
    seq(|inCode|, i requires 0 <= i < |inCode| => MissingInCode(enumName, inCode[i]))
    + seq(|inMaster|, i requires 0 <= i < |inMaster| => MissingInMaster(enumName, inMaster[i]))
  }

  lemma ListedExactly(b: Binding, inCode: seq<string>, inMaster: seq<string>)
    requires b.master.Some? && SortedKeys(inCode, NotInCode(b)) && SortedKeys(inMaster, NotInMaster(b))
    ensures
      var violations := MissingFrom(b.enumName, inCode, inMaster);
      InOrder(violations) && forall v :: v in violations <==> Deserves(b, v)
  {
    var a := seq(|inCode|, i requires 0 <= i < |inCode| => MissingInCode(b.enumName, inCode[i]));
    var c := seq(|inMaster|, i requires 0 <= i < |inMaster| => MissingInMaster(b.enumName, inMaster[i]));
    forall v ensures v in a + c <==> Deserves(b, v) {
      KeyIsListed(b, inCode, inMaster, v);
    }
  }

  lemma KeyIsListed(b: Binding, inCode: seq<string>, inMaster: seq<string>, v: Violation)
    requires b.master.Some? && SortedKeys(inCode, NotInCode(b)) && SortedKeys(inMaster, NotInMaster(b))
    ensures v in MissingFrom(b.enumName, inCode, inMaster) <==> Deserves(b, v)
  {
    var a := seq(|inCode|, i requires 0 <= i < |inCode| => MissingInCode(b.enumName, inCode[i]));
    var c := seq(|inMaster|, i requires 0 <= i < |inMaster| => MissingInMaster(b.enumName, inMaster[i]));
    assert v in a + c <==> v in a || v in c;
    if v.MissingInCode? && Deserves(b, v) {
      var i :| 0 <= i < |inCode| && inCode[i] == v.key;
      assert a[i] == v;
    }
    if v.MissingInMaster? && Deserves(b, v) {
      var i :| 0 <= i < |inMaster| && inMaster[i] == v.key;
      assert c[i] == v;
    }
  }

  datatype Validation = Validation(isValid: bool, totalBindings: nat, totalViolations: nat, violations: seq<Violation>,
                                   summaries: seq<Option<Summary>>)

  /** `validate`, without the exception it may raise on failure. */
  method Validate(bindings: seq<Binding>) returns (r: Validation)
    ensures r.totalBindings == |bindings| && r.totalViolations == |r.violations| == TotalViolations(bindings)
    ensures Exact(r.violations, bindings)
    ensures r.isValid <==> AllInSync(bindings)
    ensures |r.summaries| == |bindings| && forall i :: 0 <= i < |bindings| ==> r.summaries[i] == SummaryOf(bindings[i])
  {
    var violations: seq<Violation> := [];
    var summaries: seq<Option<Summary>> := [];
    for i := 0 to |bindings|
      invariant |violations| == TotalViolations(bindings[..i])
      invariant Exact(violations, bindings[..i])
      invariant |summaries| == i && forall j :: 0 <= j < i ==> summaries[j] == SummaryOf(bindings[j])
    {
      assert bindings[..i + 1][..i] == bindings[..i];
      var found, summary := CheckBinding(bindings[i]);
      ExactGrows(violations, bindings[..i], found, bindings[i]);
      assert bindings[..i + 1] == bindings[..i] + [bindings[i]];
      violations := violations + found;
      summaries := summaries + [summary];
    }
    assert bindings[..|bindings|] == bindings;
    NoViolationExactlyWhen(bindings);
    return Validation(|violations| == 0, |bindings|, |violations|, violations, summaries);
  }

  lemma ExactGrows(violations: seq<Violation>, bindings: seq<Binding>, found: seq<Violation>, b: Binding)
    requires Exact(violations, bindings) && forall v :: v in found <==> Deserves(b, v)
    ensures Exact(violations + found, bindings + [b])
  {
  }

  /** Enumeration and master agree: the records were retrieved and, up to case and surrounding
      white space, the member values are the active codes. */
  predicate InSync(b: Binding) {
    b.master.Some? && Normalized(b.values) == Normalized(ActiveCodes(b.master.value))
  }

  lemma BindingInSyncExactlyWhen(b: Binding)
    ensures Violations(b) == 0 <==> InSync(b)
  {
  }

  ghost predicate AllInSync(bindings: seq<Binding>) {
    forall i :: 0 <= i < |bindings| ==> InSync(bindings[i])
  }

  lemma AllInSyncSplits(front: seq<Binding>, b: Binding)
    ensures AllInSync(front + [b]) <==> AllInSync(front) && InSync(b)
  {
    var all := front + [b];
    assert all[|front|] == b && forall i :: 0 <= i < |front| ==> all[i] == front[i];
    if AllInSync(all) {
      forall i | 0 <= i < |front| ensures InSync(front[i]) { assert InSync(all[i]); }
    }
  }

  /** Main result: there is no violation exactly when every bound enumeration is in sync. */
  lemma {:induction false} NoViolationExactlyWhen(bindings: seq<Binding>)
    ensures TotalViolations(bindings) == 0 <==> AllInSync(bindings)
  {
    if bindings != [] {
      var front, b := bindings[..|bindings| - 1], bindings[|bindings| - 1];
      NoViolationExactlyWhen(front);
      BindingInSyncExactlyWhen(b);
      AllInSyncSplits(front, b);
      assert bindings == front + [b];
    }
  }

  function MangleChar(c: char): char {
    if c == '-' || c == '.' || c == ' ' then '_' else UpperChar(c)
  }

  /** The member key of a code. */
  function Mangle(code: string): (key: string)
    ensures |key| == |code| && forall i :: 0 <= i < |code| ==> key[i] == MangleChar(code[i])
  {
    seq(|code|, i requires 0 <= i < |code| => MangleChar(code[i]))
  }

  function Members(records: seq<MasterValue>): map<string, string> {
    if records == [] then map[]
    else
      var m, r := Members(records[..|records| - 1]), records[|records| - 1];
      if r.isActive then m[Mangle(r.code) := r.code] else m
  }

  /** `generate_enum_from_master`: later codes replace earlier ones of the same member key. */
  method GenerateEnum(records: seq<MasterValue>) returns (members: map<string, string>)
    ensures members == Members(records)
  {
    members := map[];
    for i := 0 to |records|
      invariant members == Members(records[..i])
    {
      assert records[..i + 1][..i] == records[..i];
      if records[i].isActive {
        members := members[Mangle(records[i].code) := records[i].code];
      }
    }
    assert records[..|records|] == records;
  }

  /** Every active code has a member under its key, and members are active codes. */
  lemma {:induction false} MembersAreCodes(records: seq<MasterValue>)
    ensures forall k :: k in Members(records) ==>
      Members(records)[k] in ActiveCodes(records) && Mangle(Members(records)[k]) == k
    ensures forall c :: c in ActiveCodes(records) ==> Mangle(c) in Members(records)
  {
    if records != [] {
      var front, r := records[..|records| - 1], records[|records| - 1];
      MembersAreCodes(front);
      ActiveCodesGrow(front, r);
      assert records == front + [r];
    }
  }

  /** No later active record has this one's member key. */
  ghost predicate IsLastOfKey(records: seq<MasterValue>, i: int) {
    && 0 <= i < |records| && records[i].isActive
    && forall j :: i < j < |records| && records[j].isActive ==> Mangle(records[j].code) != Mangle(records[i].code)
  }

  /** A member's value is the last active code of its key. */
  lemma {:induction false} LastCodeWins(records: seq<MasterValue>, i: int)
    requires IsLastOfKey(records, i)
    ensures Mangle(records[i].code) in Members(records) && Members(records)[Mangle(records[i].code)] == records[i].code
  {
    var n := |records| - 1;
    if i < n {
      assert records[..n][i] == records[i];
      LastCodeWins(records[..n], i);
    }
  }

  /** And every member has such a code. */
  lemma {:induction false} EveryKeyHasLast(records: seq<MasterValue>, key: string) returns (i: int)
    requires key in Members(records)
    ensures IsLastOfKey(records, i) && Mangle(records[i].code) == key
  {
    var n := |records| - 1;
    if records[n].isActive && Mangle(records[n].code) == key {
      i := n;
    } else {
      i := EveryKeyHasLast(records[..n], key);
    }
  }

  /** The characters of a member key: an underscore for a hyphen, full stop or blank, the upper case
      of a letter, and any other character as it is. */
  lemma KeyCharacters(code: string, i: nat)
    requires i < |code|
    ensures |Mangle(code)| == |code| && Mangle(code)[i] !in "-. " && !('a' <= Mangle(code)[i] <= 'z')
    ensures code[i] in "-. " ==> Mangle(code)[i] == '_'
    ensures code[i] !in "-. " ==> SameLetter(Mangle(code)[i], code[i])
  {
    SameUpperChar(UpperChar(code[i]), code[i]);
  }

  lemma ActiveCodesGrow(front: seq<MasterValue>, r: MasterValue)
    ensures ActiveCodes(front + [r]) == ActiveCodes(front) + if r.isActive then {r.code} else {}
  {
    var all := front + [r];
    assert forall i :: 0 <= i < |front| ==> all[i] == front[i];
    assert all[|front|] == r;
  }

  /** Codes that share a member key are the same code up to case and white space. */
  ghost predicate KeysSeparate(codes: set<string>) {
    forall c, d :: c in codes && d in codes && Mangle(c) == Mangle(d) ==> Normalize(c) == Normalize(d)
  }

  function GeneratedBinding(enumName: string, records: seq<MasterValue>): Binding {
    Binding(enumName, Members(records).Values, Some(records))
  }

  lemma SameUpperSameKey(c: string, d: string)
    requires Upper(c) == Upper(d)
    ensures Mangle(c) == Mangle(d)
  {
  }

  /** Main result: an enumeration generated from a master passes the check against that same
      master exactly when member keys separate its active codes (stored trimmed). */
  lemma GeneratedEnumValidatesExactlyWhen(enumName: string, records: seq<MasterValue>)
    requires forall c :: c in ActiveCodes(records) ==> Strip(c) == c
    ensures InSync(GeneratedBinding(enumName, records)) <==> KeysSeparate(ActiveCodes(records))
  {
    var codes, members := ActiveCodes(records), Members(records);
    MembersAreCodes(records);
    if KeysSeparate(codes) {
      GeneratedEnumValidates(enumName, records);
    }
    if InSync(GeneratedBinding(enumName, records)) {
      forall c, d | c in codes && d in codes && Mangle(c) == Mangle(d) ensures Normalize(c) == Normalize(d) {
        SurvivorOf(records, c);
        SurvivorOf(records, d);
      }
    }
  }

  /** In a valid generated enumeration the member under a code's key is that code's. */
  lemma SurvivorOf(records: seq<MasterValue>, c: string)
    requires forall x :: x in ActiveCodes(records) ==> Strip(x) == x
    requires Normalized(Members(records).Values) == Normalized(ActiveCodes(records)) && c in ActiveCodes(records)
    ensures Mangle(c) in Members(records) && Normalize(Members(records)[Mangle(c)]) == Normalize(c)
  {
    MembersAreCodes(records);
    assert Normalize(c) in Normalized(Members(records).Values);
    var v :| v in Members(records).Values && Normalize(v) == Normalize(c);
    var k :| k in Members(records) && Members(records)[k] == v;
    SameUpperSameKey(v, c);
  }

  /** One half needs no trimming: separating member keys are enough. */
  lemma GeneratedEnumValidates(enumName: string, records: seq<MasterValue>)
    requires KeysSeparate(ActiveCodes(records))
    ensures InSync(GeneratedBinding(enumName, records))
  {
    var codes, members := ActiveCodes(records), Members(records);
    MembersAreCodes(records);
    forall n ensures n in Normalized(members.Values) <==> n in Normalized(codes) {
      if n in Normalized(codes) {
        var c :| c in codes && Normalize(c) == n;
        assert members[Mangle(c)] in members.Values;
      }
      if n in Normalized(members.Values) {
        var v :| v in members.Values && Normalize(v) == n;
        assert v in codes;
      }
    }
  }
}
