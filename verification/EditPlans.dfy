/**
 Edit plans: the claims of `_normalize_operations`, the application of the operations, and the
 report of `_changes`.  `Fold` is the portable form of one path component, under which file systems
 may confuse two names; a path is folded component by component.
 */
module EditPlans {
  import opened Common
  import opened Ordering
  import opened OverlayTree
  import opened Permissions
  import opened Text
  import opened Providers

  type Fold = string -> string

  function FoldPath(fold: Fold, path: Path): Path {
    seq(|path|, i requires 0 <= i < |path| => fold(path[i]))
  }

  function FoldKey(fold: Fold, k: Key): Key {
    k.(path := FoldPath(fold, k.path))
  }

  // ----- Claims -----

  function Claims(fold: Fold, op: Operation): seq<Key> {
    if op.Move? then [FoldKey(fold, op.source), FoldKey(fold, op.key)] else [FoldKey(fold, op.key)]
  }

  function AllClaims(fold: Fold, ops: seq<Operation>): seq<Key> {
    if ops == [] then [] else Claims(fold, ops[0]) + AllClaims(fold, ops[1..])
  }

  ghost predicate Twice<T>(xs: seq<T>, x: T) {
    exists i, j :: 0 <= i < j < |xs| && xs[i] == x && xs[j] == x
  }

  /** The inner loop of `_normalize_operations`: takes the claims of one operation. */
  method TakeClaims(targets: set<Key>, claimed: seq<Key>, ghost taken: seq<Key>)
    returns (all: set<Key>, duplicate: Option<Key>)
    requires Distinct(taken) && forall k :: k in targets <==> k in taken
    ensures duplicate.None? ==> Distinct(taken + claimed) && forall k :: k in all <==> k in taken + claimed
    ensures duplicate.Some? ==> Twice(taken + claimed, duplicate.value)
  {
    all, duplicate := targets, None;
    for c := 0 to |claimed|
      invariant Distinct(taken + claimed[..c]) && forall k :: k in all <==> k in taken + claimed[..c]
    {
      if claimed[c] in all {
        ghost var soFar := taken + claimed[..c];
        ghost var i :| 0 <= i < |soFar| && soFar[i] == claimed[c];
        assert (taken + claimed)[i] == claimed[c] && (taken + claimed)[|taken| + c] == claimed[c];
        return all, Some(claimed[c]);
      }
      all := all + {claimed[c]};
      assert taken + claimed[..c + 1] == taken + claimed[..c] + [claimed[c]];
    }
    assert claimed[..|claimed|] == claimed;
  }

  lemma TwicePersists<T>(xs: seq<T>, ys: seq<T>, x: T)
    requires Twice(xs, x)
    ensures Twice(xs + ys, x) && !Distinct(xs + ys)
  {
    var i, j :| 0 <= i < j < |xs| && xs[i] == x && xs[j] == x;
    assert (xs + ys)[i] == x && (xs + ys)[j] == x;
  }

  // ----- Normalisation -----

  datatype RawKey = RawKey(side: string, path: string)

  /** A mode as a caller passes it: twelve bits, or a number that is none. */
  datatype RawMode = Bits(bits: Mode) | NotBits(number: int)

  /** An operation as a caller passes it. */
  datatype RawOperation =
    | RawCreateFile(key: RawKey, contents: Bytes, mode: RawMode)
    | RawReplaceFile(key: RawKey, contents: Bytes, expected: Option<Bytes>, newMode: Option<RawMode>)
    | RawDeleteFile(key: RawKey)
    | RawCreateDirectory(key: RawKey, mode: RawMode)
    | RawDeleteDirectory(key: RawKey)
    | RawMove(source: RawKey, key: RawKey)

  datatype PlanError = BadSide(side: string) | BadPath(path: string) | BadMode(mode: RawMode) | Duplicate(claim: Key)

  /** `_normalize_path`: the components of a path that may be in an overlay. */
  type Spelling = string -> Option<Path>

  /** `_normalize_side`. */
  function NormalizeSide(side: string): Result<Side, PlanError> {
    var name := Lower(Strip(side));
    if name == "common" then Ok(CommonSide)
    else if name == "client" then Ok(Client)
    else if name == "server" then Ok(Server)
    else Err(BadSide(side))
  }

  function NormalizeKey(spelling: Spelling, raw: RawKey): Result<Key, PlanError> {
    var side :- NormalizeSide(raw.side);
    var path := spelling(raw.path);
    if path.None? then Err(BadPath(raw.path)) else Ok(Key(side, path.value))
  }

  /** `_validate_mode`. */
  function ValidateMode(mode: RawMode): Result<Mode, PlanError> {
    if mode.Bits? && mode.bits <= 0x1FF then Ok(mode.bits) else Err(BadMode(mode))
  }

  function Normalize(spelling: Spelling, raw: RawOperation): Result<Operation, PlanError> {
    match raw
    case RawCreateFile(key, contents, mode) =>
      var key :- NormalizeKey(spelling, key);
      var mode :- ValidateMode(mode);
      Ok(CreateFile(key, contents, mode))
    case RawReplaceFile(key, contents, expected, newMode) =>
      var key :- NormalizeKey(spelling, key);
      if newMode.None? then Ok(ReplaceFile(key, contents, expected, None))
      else
        var mode :- ValidateMode(newMode.value);
        Ok(ReplaceFile(key, contents, expected, Some(mode)))
    case RawDeleteFile(key) =>
      var key :- NormalizeKey(spelling, key);
      Ok(DeleteFile(key))
    case RawCreateDirectory(key, mode) =>
      var key :- NormalizeKey(spelling, key);
      var mode :- ValidateMode(mode);
      Ok(CreateDirectory(key, mode))
    case RawDeleteDirectory(key) =>
      var key :- NormalizeKey(spelling, key);
      Ok(DeleteDirectory(key))
    case RawMove(source, key) =>
      var source :- NormalizeKey(spelling, source);
      var key :- NormalizeKey(spelling, key);
      Ok(Move(source, key))
  }

  /** Every operation can be normalised on its own, and this is what comes of it. */
  ghost predicate Normal(spelling: Spelling, raws: seq<RawOperation>, ops: seq<Operation>) {
    |ops| == |raws| && forall i :: 0 <= i < |raws| ==> Normalize(spelling, raws[i]) == Ok(ops[i])
  }

  /** The first problem of a sequence of operations is at `n`, after the operations `before`. */
  ghost predicate FailsAt(
    fold: Fold, spelling: Spelling, raws: seq<RawOperation>, n: nat, before: seq<Operation>, error: PlanError) {
    && n < |raws| && Normal(spelling, raws[..n], before) && Distinct(AllClaims(fold, before))
    && var item := Normalize(spelling, raws[n]);
       if item.Err? then error == item.error
       else error.Duplicate? && Twice(AllClaims(fold, before) + Claims(fold, item.value), error.claim)
  }

  /** `_normalize_operations`. */
  method NormalizeOperations(
    fold: Fold, spelling: Spelling, raws: seq<RawOperation>) returns (r: Result<seq<Operation>, PlanError>)
    ensures r.Ok? <==> exists ops :: Normal(spelling, raws, ops) && Distinct(AllClaims(fold, ops))
    ensures r.Ok? ==> Normal(spelling, raws, r.value) && Distinct(AllClaims(fold, r.value))
    ensures r.Err? ==> exists n, before :: FailsAt(fold, spelling, raws, n, before, r.error)
  {
    var normalized: seq<Operation> := [];
    var targets: set<Key> := {};
    for n := 0 to |raws|
      invariant Normal(spelling, raws[..n], normalized)
      invariant Distinct(AllClaims(fold, normalized)) && forall k :: k in targets <==> k in AllClaims(fold, normalized)
    {
      var item := Normalize(spelling, raws[n]);
      ghost var before := normalized;
      if item.Err? {
        assert FailsAt(fold, spelling, raws, n, before, item.error);
        NeverNormal(spelling, raws, n);
        return Err(item.error);
      }
      var claims, duplicate := TakeClaims(targets, Claims(fold, item.value), AllClaims(fold, normalized));
      if duplicate.Some? {
        assert FailsAt(fold, spelling, raws, n, before, Duplicate(duplicate.value));
        DuplicatesStay(fold, spelling, raws, n, before, item.value, duplicate.value);
        return Err(Duplicate(duplicate.value));
      }
      targets, normalized := claims, normalized + [item.value];
      ClaimsOneMore(fold, before, item.value);
      assert raws[..n + 1] == raws[..n] + [raws[n]];
    }
    assert raws[..|raws|] == raws;
    r := Ok(normalized);
  }

  lemma NeverNormal(spelling: Spelling, raws: seq<RawOperation>, n: nat)
    requires n < |raws| && Normalize(spelling, raws[n]).Err?
    ensures forall ops :: !Normal(spelling, raws, ops)
  {
  }

  lemma {:induction false} ClaimsSplit(fold: Fold, a: seq<Operation>, b: seq<Operation>)
    ensures AllClaims(fold, a + b) == AllClaims(fold, a) + AllClaims(fold, b)
    decreases |a|
  {
    if a == [] {
      assert a + b == b;
    } else {
      assert (a + b)[1..] == a[1..] + b;
      ClaimsSplit(fold, a[1..], b);
    }
  }

  lemma ClaimsOneMore(fold: Fold, before: seq<Operation>, op: Operation)
    ensures AllClaims(fold, before + [op]) == AllClaims(fold, before) + Claims(fold, op)
  {
    ClaimsSplit(fold, before, [op]);
    assert [op][1..] == [] && AllClaims(fold, [op]) == Claims(fold, op) + [];
  }

  /** What is claimed twice early stays claimed twice. */
  lemma DuplicatesStay(
    fold: Fold, spelling: Spelling, raws: seq<RawOperation>, n: nat, before: seq<Operation>, op: Operation, claim: Key)
    requires n < |raws| && Normal(spelling, raws[..n], before) && Normalize(spelling, raws[n]) == Ok(op)
    requires Twice(AllClaims(fold, before) + Claims(fold, op), claim)
    ensures forall ops :: Normal(spelling, raws, ops) ==> !Distinct(AllClaims(fold, ops))
  {
    forall ops | Normal(spelling, raws, ops) ensures !Distinct(AllClaims(fold, ops)) {
      NormalPrefix(spelling, raws, n, before, op, ops);
      DuplicateInPrefix(fold, before, op, ops[n + 1..], claim);
    }
  }

  /** There is only one way to normalise. */
  lemma NormalPrefix(
    spelling: Spelling, raws: seq<RawOperation>, n: nat, before: seq<Operation>, op: Operation, ops: seq<Operation>)
    requires n < |raws| && Normal(spelling, raws[..n], before) && Normalize(spelling, raws[n]) == Ok(op)
    requires Normal(spelling, raws, ops)
    ensures ops == before + [op] + ops[n + 1..]
  {
    assert ops[n] == op;
    forall i | 0 <= i < n ensures ops[i] == before[i] { assert raws[..n][i] == raws[i]; }
  }

  lemma DuplicateInPrefix(fold: Fold, before: seq<Operation>, op: Operation, rest: seq<Operation>, claim: Key)
    requires Twice(AllClaims(fold, before) + Claims(fold, op), claim)
    ensures !Distinct(AllClaims(fold, before + [op] + rest))
  {
    ClaimsOfThree(fold, before, op, rest);
    TwicePersists(AllClaims(fold, before) + Claims(fold, op), AllClaims(fold, rest), claim);
  }

  function SideName(side: Side): string {
    match side
    case CommonSide => "common"
    case Client => "client"
    case Server => "server"
  }

  /** An operation as a caller would pass it again. */
  function RawOf(op: Operation, spelled: Path -> string): RawOperation {
    var key := RawKey(SideName(op.key.side), spelled(op.key.path));
    match op
    case CreateFile(_, contents, mode) => RawCreateFile(key, contents, Bits(mode))
    case ReplaceFile(_, contents, expected, newMode) =>
      RawReplaceFile(key, contents, expected, if newMode.Some? then Some(Bits(newMode.value)) else None)
    case DeleteFile(_) => RawDeleteFile(key)
    case CreateDirectory(_, mode) => RawCreateDirectory(key, Bits(mode))
    case DeleteDirectory(_) => RawDeleteDirectory(key)
    case Move(source, _) => RawMove(RawKey(SideName(source.side), spelled(source.path)), key)
  }

  lemma SideNameIsNormal(side: Side)
    ensures NormalizeSide(SideName(side)) == Ok(side)
  {
    match side {
      case CommonSide => assert Strip("common") == "common" && Lower("common") == "common";
      case Client => assert Strip("client") == "client" && Lower("client") == "client";
      case Server => assert Strip("server") == "server" && Lower("server") == "server";
    }
  }

  /** A side is read in any case and with whitespace around it. */
  lemma SideIsReadPlainly(side: string)
    ensures NormalizeSide(side).Ok? <==> NormalizeSide(Lower(Strip(side))).Ok?
    ensures NormalizeSide(side).Ok? ==> NormalizeSide(side) == NormalizeSide(Lower(Strip(side)))
    ensures NormalizeSide(side).Ok? ==> Lower(Strip(side)) == SideName(NormalizeSide(side).value)
  {
    PlainFormIsPlain(side);
  }

  /** The first thing that is wrong with a key: its side, and then its path. */
  ghost predicate KeyFails(spelling: Spelling, raw: RawKey, error: PlanError) {
    if NormalizeSide(raw.side).Err? then error == BadSide(raw.side)
    else spelling(raw.path).None? && error == BadPath(raw.path)
  }

  ghost predicate ModeFails(raw: RawOperation, error: PlanError) {
    match raw
    case RawCreateFile(_, _, mode) => error == BadMode(mode)
    case RawReplaceFile(_, _, _, newMode) => newMode.Some? && error == BadMode(newMode.value)
    case RawCreateDirectory(_, mode) => error == BadMode(mode)
    case _ => false
  }

  /** What is wrong with an operation is told in order: the source of a move, then the key, then the mode. */
  lemma FirstProblemIs(spelling: Spelling, raw: RawOperation)
    requires Normalize(spelling, raw).Err?
    ensures
      var error := Normalize(spelling, raw).error;
      if raw.RawMove? && NormalizeKey(spelling, raw.source).Err? then KeyFails(spelling, raw.source, error)
      else if NormalizeKey(spelling, raw.key).Err? then KeyFails(spelling, raw.key, error)
      else ModeFails(raw, error)
  {
  }

  /** The paths that the normaliser gives are normal themselves. */
  ghost predicate Settles(spelling: Spelling, spelled: Path -> string) {
    forall path :: spelling(path).Some? ==> spelling(spelled(spelling(path).value)) == spelling(path)
  }

  lemma KeyAgain(spelling: Spelling, spelled: Path -> string, raw: RawKey)
    requires Settles(spelling, spelled) && NormalizeKey(spelling, raw).Ok?
    ensures var k := NormalizeKey(spelling, raw).value;
            NormalizeKey(spelling, RawKey(SideName(k.side), spelled(k.path))) == Ok(k)
  {
    var k := NormalizeKey(spelling, raw).value;
    SideNameIsNormal(k.side);
    assert spelling(raw.path) == Some(k.path);
  }

  /** Normalising again changes nothing. */
  lemma NormalisationIsIdempotent(spelling: Spelling, spelled: Path -> string, raw: RawOperation)
    requires Settles(spelling, spelled) && Normalize(spelling, raw).Ok?
    ensures Normalize(spelling, RawOf(Normalize(spelling, raw).value, spelled)) == Normalize(spelling, raw)
  {
    KeyAgain(spelling, spelled, raw.key);
    var key := NormalizeKey(spelling, raw.key).value;
    var again := RawKey(SideName(key.side), spelled(key.path));
    assert Normalize(spelling, raw).value.key == key && RawOf(Normalize(spelling, raw).value, spelled).key == again;
    assert NormalizeKey(spelling, again) == Ok(key);
    if raw.RawMove? { KeyAgain(spelling, spelled, raw.source); }
  }

  // ----- Passing normal operations -----

  /** The mode that an operation sets is one that normalisation lets through. */
  predicate FitsMode(op: Operation) {
    match op
    case CreateFile(_, _, mode) => mode <= 0x1FF
    case ReplaceFile(_, _, _, newMode) => newMode.Some? ==> newMode.value <= 0x1FF
    case CreateDirectory(_, mode) => mode <= 0x1FF
    case _ => true
  }

  /** The paths of an operation are normal. */
  ghost predicate SpelledBack(spelling: Spelling, spelled: Path -> string, op: Operation) {
    && spelling(spelled(op.key.path)) == Some(op.key.path)
    && (op.Move? ==> spelling(spelled(op.source.path)) == Some(op.source.path))
  }

  /** An operation with normal paths is normalised to itself exactly if its mode fits; otherwise the mode is refused. */
  lemma NormalOperation(spelling: Spelling, spelled: Path -> string, op: Operation)
    requires SpelledBack(spelling, spelled, op)
    ensures Normalize(spelling, RawOf(op, spelled)) == Ok(op) <==> FitsMode(op)
    ensures !FitsMode(op) ==>
              Normalize(spelling, RawOf(op, spelled)).Err? && Normalize(spelling, RawOf(op, spelled)).error.BadMode?
  {
    if op.Move? { NormalMove(spelling, spelled, op.source, op.key); } else { NormalChange(spelling, spelled, op); }
  }

  lemma NormalMove(spelling: Spelling, spelled: Path -> string, source: Key, key: Key)
    requires SpelledBack(spelling, spelled, Move(source, key))
    ensures Normalize(spelling, RawOf(Move(source, key), spelled)) == Ok(Move(source, key))
  {
    KeySpelledBack(spelling, spelled, source);
    KeySpelledBack(spelling, spelled, key);
  }

  lemma NormalChange(spelling: Spelling, spelled: Path -> string, op: Operation)
    requires SpelledBack(spelling, spelled, op) && !op.Move?
    ensures
      var r := Normalize(spelling, RawOf(op, spelled));
      (r == Ok(op) <==> FitsMode(op)) && (!FitsMode(op) ==> r.Err? && r.error.BadMode?)
  {
    KeySpelledBack(spelling, spelled, op.key);
    var raw := RawOf(op, spelled);
    assert NormalizeKey(spelling, raw.key) == Ok(op.key);
  }

  lemma KeySpelledBack(spelling: Spelling, spelled: Path -> string, k: Key)
    requires spelling(spelled(k.path)) == Some(k.path)
    ensures NormalizeKey(spelling, RawKey(SideName(k.side), spelled(k.path))) == Ok(k)
  {
    SideNameIsNormal(k.side);
  }

  function RawsOf(ops: seq<Operation>, spelled: Path -> string): seq<RawOperation> {
    seq(|ops|, i requires 0 <= i < |ops| => RawOf(ops[i], spelled))
  }

  /** `_normalize_operations` accepts the operations and leaves them as they are. */
  ghost predicate Accepted(fold: Fold, spelling: Spelling, spelled: Path -> string, ops: seq<Operation>) {
    Normal(spelling, RawsOf(ops, spelled), ops) && Distinct(AllClaims(fold, ops))
  }

  lemma AcceptedIffModesFit(fold: Fold, spelling: Spelling, spelled: Path -> string, ops: seq<Operation>)
    requires forall op :: op in ops ==> SpelledBack(spelling, spelled, op)
    ensures Accepted(fold, spelling, spelled, ops) <==>
              (forall op :: op in ops ==> FitsMode(op)) && Distinct(AllClaims(fold, ops))
  {
    forall i | 0 <= i < |ops| ensures Normalize(spelling, RawsOf(ops, spelled)[i]) == Ok(ops[i]) <==> FitsMode(ops[i]) {
      assert ops[i] in ops;
      NormalOperation(spelling, spelled, ops[i]);
    }
  }

  // ----- Runs -----

  function ApplyAll(t: Tree, ops: seq<Operation>): Option<Tree>
    decreases |ops|
  {
    if ops == [] then Some(t)
    else
      var next := ApplyOperation(t, ops[0]);
      if next.None? then None else ApplyAll(next.value, ops[1..])
  }

  /** The loop that stages the operations of a plan. */
  method StageOperations(t: Tree, ops: seq<Operation>) returns (staged: Option<Tree>)
    ensures staged == ApplyAll(t, ops)
  {
    var current := t;
    assert ops[0..] == ops;
    for i := 0 to |ops|
      invariant ApplyAll(t, ops) == ApplyAll(current, ops[i..])
    {
      assert ops[i..][0] == ops[i] && ops[i..][1..] == ops[i + 1..];
      var next := ApplyOperation(current, ops[i]);
      if next.None? { return None; }
      current := next.value;
    }
    staged := Some(current);
  }

  /** The overlays before, between and after the operations. */
  ghost predicate IsRun(states: seq<Tree>, ops: seq<Operation>) {
    && |states| == |ops| + 1 && PrefixClosed(states[0])
    && forall i :: 0 <= i < |ops| ==> ApplyOperation(states[i], ops[i]) == Some(states[i + 1])
  }

  /** A staged sequence has a run. */
  lemma {:induction false} RunOf(t: Tree, ops: seq<Operation>) returns (states: seq<Tree>)
    requires PrefixClosed(t) && ApplyAll(t, ops).Some?
    ensures IsRun(states, ops) && states[0] == t && states[|ops|] == ApplyAll(t, ops).value
    decreases |ops|
  {
    if ops == [] {
      states := [t];
    } else {
      var next := ApplyOperation(t, ops[0]).value;
      OperationKeepsPrefixClosed(t, ops[0]);
      var rest := RunOf(next, ops[1..]);
      states := [t] + rest;
      forall i | 0 <= i < |ops| ensures ApplyOperation(states[i], ops[i]) == Some(states[i + 1]) {
        if i > 0 { assert ApplyOperation(rest[i - 1], ops[1..][i - 1]) == Some(rest[i - 1 + 1]); }
      }
    }
  }

  /** No two operations of a sequence take the same key, and none takes one twice. */
  ghost predicate TargetsDistinct(ops: seq<Operation>) {
    && (forall i, j, k :: 0 <= i < j < |ops| && k in Targets(ops[i]) ==> k !in Targets(ops[j]))
    && (forall i :: 0 <= i < |ops| && ops[i].Move? ==> ops[i].source != ops[i].key)
  }

  lemma Around<T>(xs: seq<T>, i: nat)
    requires i < |xs|
    ensures xs == xs[..i] + [xs[i]] + xs[i + 1..]
  {
  }

  lemma DistinctParts<T>(prefix: seq<T>, part: seq<T>, suffix: seq<T>)
    requires Distinct(prefix + part + suffix)
    ensures Distinct(part) && forall x :: x in part ==> x !in suffix
  {
    var all := prefix + part + suffix;
    forall i | 0 <= i < |part| ensures all[|prefix| + i] == part[i] {}
    forall i | 0 <= i < |suffix| ensures all[|prefix| + |part| + i] == suffix[i] {}
  }

  lemma ClaimsAround(fold: Fold, ops: seq<Operation>, i: nat)
    requires i < |ops|
    ensures AllClaims(fold, ops) == AllClaims(fold, ops[..i]) + Claims(fold, ops[i]) + AllClaims(fold, ops[i + 1..])
  {
    Around(ops, i);
    ClaimsOfThree(fold, ops[..i], ops[i], ops[i + 1..]);
  }

  lemma ClaimsOfThree(fold: Fold, before: seq<Operation>, op: Operation, rest: seq<Operation>)
    ensures AllClaims(fold, before + [op] + rest) == AllClaims(fold, before) + Claims(fold, op) + AllClaims(fold, rest)
  {
    ClaimsOneMore(fold, before, op);
    ClaimsSplit(fold, before + [op], rest);
  }

  lemma {:induction false} LaterClaims(fold: Fold, ops: seq<Operation>)
    ensures forall j, k :: 0 <= j < |ops| && k in Targets(ops[j]) ==> FoldKey(fold, k) in AllClaims(fold, ops)
    decreases |ops|
  {
    if ops != [] {
      LaterClaims(fold, ops[1..]);
      forall j, k | 0 <= j < |ops| && k in Targets(ops[j]) ensures FoldKey(fold, k) in AllClaims(fold, ops) {
        if j > 0 { assert ops[j] == ops[1..][j - 1]; }
      }
    }
  }

  /** What `_normalize_operations` accepts has distinct targets, whatever the folding confuses. */
  lemma AcceptedTargetsAreDistinct(fold: Fold, ops: seq<Operation>)
    requires Distinct(AllClaims(fold, ops))
    ensures TargetsDistinct(ops)
  {
    forall i, j, k | 0 <= i < j < |ops| && k in Targets(ops[i]) ensures k !in Targets(ops[j]) {
      ClaimsAround(fold, ops, i);
      DistinctParts(AllClaims(fold, ops[..i]), Claims(fold, ops[i]), AllClaims(fold, ops[i + 1..]));
      LaterClaims(fold, ops[i + 1..]);
      assert FoldKey(fold, k) in Claims(fold, ops[i]) && ops[j] == ops[i + 1..][j - i - 1];
    }
    forall i | 0 <= i < |ops| && ops[i].Move? ensures ops[i].source != ops[i].key {
      ClaimsAround(fold, ops, i);
      DistinctParts(AllClaims(fold, ops[..i]), Claims(fold, ops[i]), AllClaims(fold, ops[i + 1..]));
      assert Claims(fold, ops[i])[0] != Claims(fold, ops[i])[1];
    }
  }

  lemma {:induction false} StatesPrefixClosed(states: seq<Tree>, ops: seq<Operation>, i: nat)
    requires IsRun(states, ops) && i < |states|
    ensures PrefixClosed(states[i])
  {
    if i > 0 {
      StatesPrefixClosed(states, ops, i - 1);
      assert ApplyOperation(states[i - 1], ops[i - 1]) == Some(states[i - 1 + 1]);
      OperationKeepsPrefixClosed(states[i - 1], ops[i - 1]);
    }
  }

  /** The step at which a key goes away. */
  lemma {:induction false} VanishStep(states: seq<Tree>, k: Key, i: nat, j: nat) returns (a: nat)
    requires i < j < |states| && k in states[i] && k !in states[j]
    ensures i <= a < j && k in states[a] && k !in states[a + 1]
    decreases j - i
  {
    if k in states[i + 1] { a := VanishStep(states, k, i + 1, j); } else { a := i; }
  }

  /** The step at which a key comes. */
  lemma {:induction false} AppearStep(states: seq<Tree>, k: Key, i: nat, j: nat) returns (a: nat)
    requires i < j < |states| && k !in states[i] && k in states[j]
    ensures i <= a < j && k !in states[a] && k in states[a + 1]
    decreases j - i
  {
    if k !in states[i + 1] { a := AppearStep(states, k, i + 1, j); } else { a := i; }
  }

  /**
   No resurrection: a key that was there and is gone never comes back.  A key can go or come with a
   directory that is moved; then that directory is the one that would have to come back.
   */
  lemma {:induction false} NoResurrection(states: seq<Tree>, ops: seq<Operation>, k: Key, i: nat, j: nat, l: nat)
    requires IsRun(states, ops) && TargetsDistinct(ops)
    requires i < j < l < |states| && k in states[i] && k !in states[j]
    ensures k !in states[l]
    decreases |k.path|
  {
    if k in states[l] {
      var a := VanishStep(states, k, i, j);
      var b := AppearStep(states, k, j, l);
      StatesPrefixClosed(states, ops, a);
      StatesPrefixClosed(states, ops, b);
      StatesPrefixClosed(states, ops, b + 1);
      OperationActsAtTargets(states[a], ops[a], k);
      OperationActsAtTargets(states[b], ops[b], k);
      var gone :| gone in Targets(ops[a]) && Under(gone, k) && gone in states[a] && gone !in states[a + 1];
      var come :| come in Targets(ops[b]) && Under(come, k) && come !in states[b] && come in states[b + 1];
      if gone != k {
        AncestorsExist(states[b + 1], gone, k);
        NoResurrection(states, ops, gone, a, a + 1, b + 1);
      } else if come != k {
        AncestorsExist(states[a], come, k);
        NoResurrection(states, ops, come, a, b, b + 1);
      }
      assert false;
    }
  }

  lemma {:induction false} UntouchedKeys(states: seq<Tree>, ops: seq<Operation>, k: Key, i: nat, j: nat)
    requires IsRun(states, ops) && TargetsDistinct(ops) && i <= j < |states| && k in states[i] && k in states[j]
    requires forall n :: i <= n < j ==> k !in Targets(ops[n])
    ensures states[i][k] == states[j][k]
    decreases j - i
  {
    if i < j {
      if k !in states[i + 1] {
        if i + 1 < j { NoResurrection(states, ops, k, i, i + 1, j); }
        assert false;
      }
      StatesPrefixClosed(states, ops, i);
      OperationActsAtTargets(states[i], ops[i], k);
      UntouchedKeys(states, ops, k, i + 1, j);
    }
  }
}
