/** The version string of a private group (src/main/crypto/ed25519-signature.ts, `genGroupVersion`). */
module GroupVersion {
  import opened Wrappers
  import opened Decimal
  import opened Sequences

  /** What a version is computed from: a member's permission and address. */
  datatype Identity = Identity(permission: int, invitee: string)

  function MemberKeyText(m: Identity): string {
    PrintInt(m.permission) + "_" + m.invitee
  }

  // --- The order of JavaScript's default sort ---

  /**
   The default sort compares UTF-16 code units, here characters are compared. The two agree below U+D800, which
   covers permissions and addresses; canonicity holds for any total order.
   */
  predicate Leq(a: string, b: string) {
    a == "" || (b != "" && (a[0] < b[0] || (a[0] == b[0] && Leq(a[1..], b[1..]))))
  }

  lemma {:induction false} LeqTotal(a: string, b: string)
    ensures Leq(a, b) || Leq(b, a)
  {
    if a != "" && b != "" {
      LeqTotal(a[1..], b[1..]);
    }
  }

  lemma {:induction false} LeqAntisymmetric(a: string, b: string)
    requires Leq(a, b) && Leq(b, a)
    ensures a == b
  {
    if a != "" {
      LeqAntisymmetric(a[1..], b[1..]);
      assert a == [a[0]] + a[1..];
      assert b == [b[0]] + b[1..];
    }
  }

  lemma {:induction false} LeqTransitive(a: string, b: string, c: string)
    requires Leq(a, b) && Leq(b, c)
    ensures Leq(a, c)
  {
    if a != "" && a[0] == b[0] && b[0] == c[0] {
      LeqTransitive(a[1..], b[1..], c[1..]);
    }
  }

  ghost predicate Sorted(s: seq<string>) {
    forall i, j :: 0 <= i < j < |s| ==> Leq(s[i], s[j])
  }

  function Insert(x: string, s: seq<string>): (r: seq<string>)
    requires Sorted(s)
    ensures Sorted(r) && multiset(r) == multiset(s) + multiset{x}
  {
    if s == [] then [x]
    else if Leq(x, s[0]) then
      BelowAll(x, s);
      [x] + s
    else
      LeqTotal(x, s[0]);
      var rest := Insert(x, s[1..]);
      InsertedAbove(x, s, rest);
      assert s == [s[0]] + s[1..];
      [s[0]] + rest
  }

  lemma BelowAll(x: string, s: seq<string>)
    requires Sorted(s) && s != [] && Leq(x, s[0])
    ensures forall i :: 0 <= i < |s| ==> Leq(x, s[i])
  {
    forall i | 0 <= i < |s|
      ensures Leq(x, s[i])
    {
      if i > 0 {
        LeqTransitive(x, s[0], s[i]);
      }
    }
  }

  lemma InsertedAbove(x: string, s: seq<string>, rest: seq<string>)
    requires Sorted(s) && s != [] && Leq(s[0], x)
    requires multiset(rest) == multiset(s[1..]) + multiset{x}
    ensures forall i :: 0 <= i < |rest| ==> Leq(s[0], rest[i])
  {
    forall i | 0 <= i < |rest|
      ensures Leq(s[0], rest[i])
    {
      assert rest[i] in multiset(rest);
      if rest[i] != x {
        assert rest[i] in multiset(s[1..]);
        assert rest[i] in s[1..];
      }
    }
  }

  function Sort(s: seq<string>): (r: seq<string>)
    ensures Sorted(r) && multiset(r) == multiset(s)
  {
    if s == [] then [] else
      assert s == s[..|s| - 1] + [s[|s| - 1]];
      Insert(s[|s| - 1], Sort(s[..|s| - 1]))
  }

  /** There is only one sorted arrangement, so it does not matter how the sort works. */
  lemma {:induction false} SortedIsUnique(a: seq<string>, b: seq<string>)
    requires Sorted(a) && Sorted(b) && multiset(a) == multiset(b)
    ensures a == b
    decreases |a|
  {
    if a == [] {
      assert |multiset(b)| == 0;
    } else {
      SameFirst(a, b);
      SortedIsUnique(a[1..], b[1..]);
      assert a == [a[0]] + a[1..] && b == [b[0]] + b[1..];
    }
  }

  lemma SameFirst(a: seq<string>, b: seq<string>)
    requires Sorted(a) && Sorted(b) && multiset(a) == multiset(b) && a != []
    ensures b != [] && a[0] == b[0] && multiset(a[1..]) == multiset(b[1..])
  {
    HeadAndTail(a);
    assert a[0] in multiset(b);
    HeadAndTail(b);
    assert b[0] in multiset(a);
    LeastIsFirst(a, b[0]);
    LeastIsFirst(b, a[0]);
    LeqAntisymmetric(a[0], b[0]);
    assert multiset(a[1..]) == multiset(a) - multiset{a[0]};
    assert multiset(b[1..]) == multiset(b) - multiset{b[0]};
  }

  lemma HeadAndTail(s: seq<string>)
    requires s != []
    ensures multiset(s) == multiset{s[0]} + multiset(s[1..])
  {
    assert s == [s[0]] + s[1..];
  }

  lemma LeastIsFirst(s: seq<string>, x: string)
    requires Sorted(s) && x in s
    ensures Leq(s[0], x)
  {
    LeqTotal(x, x);
  }

  // --- The version ---

  function KeyTexts(ms: seq<Identity>): seq<string> {
    Map((m: Identity) => MemberKeyText(m), ms)
  }

  /** The commit number as printed; `None` is NaN. */
  function CommitText(commits: Option<nat>): string {
    if commits.Some? then PrintNat(commits.value) else "NaN"
  }

  function HashInput(ownerSignature: string, ms: seq<Identity>): string {
    ownerSignature + Flatten(Sort(KeyTexts(ms)))
  }

  function GenGroupVersion(md5: string -> string, commits: Option<nat>, ownerSignature: string, ms: seq<Identity>): string {
    CommitText(commits) + "." + md5(HashInput(ownerSignature, ms))
  }

  /** The version depends only on the multiset of (permission, invitee), never on the order of the rows. */
  lemma VersionIsCanonical(md5: string -> string, commits: Option<nat>, ownerSignature: string,
                           ms: seq<Identity>, ns: seq<Identity>)
    requires multiset(ms) == multiset(ns)
    ensures GenGroupVersion(md5, commits, ownerSignature, ms) == GenGroupVersion(md5, commits, ownerSignature, ns)
  {
    MapOfPermutation((m: Identity) => MemberKeyText(m), ms, ns);
    SortedIsUnique(Sort(KeyTexts(ms)), Sort(KeyTexts(ns)));
  }

  /** Whatever sorted permutation a sort returns, its joined text after the signature is what is hashed. */
  lemma AnySortWillDo(md5: string -> string, n: nat, ownerSignature: string, ms: seq<Identity>, sorted: seq<string>)
    requires Sorted(sorted) && multiset(sorted) == multiset(KeyTexts(ms))
    ensures HashInput(ownerSignature, ms) == ownerSignature + Flatten(sorted)
    ensures GenGroupVersion(md5, Some(n), ownerSignature, ms) == PrintNat(n) + "." + md5(ownerSignature + Flatten(sorted))
  {
    SortedIsUnique(sorted, Sort(KeyTexts(ms)));
  }

  lemma KeyTextsOfTwo(m: Identity, n: Identity)
    ensures KeyTexts([m]) == [MemberKeyText(m)]
    ensures KeyTexts([m, n]) == [MemberKeyText(m), MemberKeyText(n)]
  {
    assert [m, n][..1] == [m];
  }

  lemma FlattenOfTwo(x: string, y: string)
    ensures Flatten([x]) == x && Flatten([x, y]) == x + y
  {
  }

  lemma SharedPrefix(prefix: string, x: string, y: string)
    requires Leq(x, y)
    ensures Leq(prefix + x, prefix + y)
  {
    if prefix == "" {
      assert prefix + x == x && prefix + y == y;
    } else {
      SharedPrefix(prefix[1..], x, y);
      assert (prefix + x)[1..] == prefix[1..] + x && (prefix + y)[1..] == prefix[1..] + y;
    }
  }

  lemma NormalKey(invitee: string)
    ensures MemberKeyText(Identity(10, invitee)) == "10_" + invitee
  {
  }

  lemma JoinedKeysHashAlike(ownerSignature: string, m: Identity, n: Identity, joined: Identity)
    requires Leq(MemberKeyText(m), MemberKeyText(n))
    requires MemberKeyText(joined) == MemberKeyText(m) + MemberKeyText(n)
    ensures HashInput(ownerSignature, [m, n]) == HashInput(ownerSignature, [joined])
  {
    var km, kn, kj := MemberKeyText(m), MemberKeyText(n), MemberKeyText(joined);
    KeyTextsOfTwo(m, n);
    KeyTextsOfTwo(joined, joined);
    AnySortWillDo(x => x, 0, ownerSignature, [m, n], [km, kn]);
    AnySortWillDo(x => x, 0, ownerSignature, [joined], [kj]);
    FlattenOfTwo(km, kn);
    FlattenOfTwo(kj, kj);
  }

  // --- When the version tells groups apart ---

  /** No member's address is a proper prefix of another's. */
  ghost predicate PrefixFree(ms: seq<Identity>) {
    forall m, n :: m in ms && n in ms && m.invitee <= n.invitee ==> m.invitee == n.invitee
  }

  /** Addresses of one length, as bare public keys are, are prefix-free. */
  lemma OneLengthIsPrefixFree(ms: seq<Identity>, length: nat)
    requires forall m :: m in ms ==> |m.invitee| == length
    ensures PrefixFree(ms)
  {
  }

  lemma SplitAtUnderscore(a: string, b: string, x: string, y: string)
    requires '_' !in a && '_' !in b && a + "_" + x == b + "_" + y
    ensures a == b && x == y
  {
    var text := a + "_" + x;
    assert text[|a|] == '_' && text[|b|] == '_';
    assert forall k :: 0 <= k < |a| ==> text[k] == a[k];
    assert forall k :: 0 <= k < |b| ==> text[k] == b[k];
    assert |a| == |b|;
    assert a == text[..|a|] && b == text[..|b|];
    assert x == text[|a| + 1..] && y == text[|b| + 1..];
  }

  lemma PrintIntIsInjective(p: int, q: int)
    requires PrintInt(p) == PrintInt(q)
    ensures p == q
  {
    var a := PrintInt(p);
    assert p >= 0 ==> IsDigit(a[0]);
    assert q >= 0 ==> IsDigit(a[0]);
    if p < 0 {
      assert PrintNat(-p) == a[1..] && PrintNat(-q) == a[1..];
      PrintedValue(-p);
      PrintedValue(-q);
    } else {
      PrintedValue(p);
      PrintedValue(q);
    }
  }

  lemma PrintedWithoutUnderscore(p: int, q: int, x: string, y: string)
    requires PrintInt(p) + "_" + x == PrintInt(q) + "_" + y
    ensures p == q && x == y
  {
    assert '_' !in PrintInt(p) && '_' !in PrintInt(q);
    SplitAtUnderscore(PrintInt(p), PrintInt(q), x, y);
    PrintIntIsInjective(p, q);
  }

  /** The first key of joined keys can be told: its permission ends at the underscore, its address by prefix-freeness. */
  lemma FirstKeyIsFixed(m: Identity, n: Identity, x: string, y: string)
    requires MemberKeyText(m) + x == MemberKeyText(n) + y
    requires m.invitee <= n.invitee || n.invitee <= m.invitee ==> m.invitee == n.invitee
    ensures m == n && x == y
  {
    var a, b := m.invitee + x, n.invitee + y;
    assert MemberKeyText(m) + x == PrintInt(m.permission) + "_" + a;
    assert MemberKeyText(n) + y == PrintInt(n.permission) + "_" + b;
    PrintedWithoutUnderscore(m.permission, n.permission, a, b);
    assert a[..|m.invitee|] == m.invitee && b[..|n.invitee|] == n.invitee;
    assert x == a[|m.invitee|..] && y == b[|n.invitee|..];
  }

  ghost predicate IsKeyOf(key: string, ms: seq<Identity>) {
    exists m :: m in ms && key == MemberKeyText(m)
  }

  /** Every one of these texts is the key of one of these members. */
  ghost predicate AreKeysOf(keys: seq<string>, ms: seq<Identity>) {
    forall i :: 0 <= i < |keys| ==> IsKeyOf(keys[i], ms)
  }

  lemma FlattenFirst(s: seq<string>)
    requires s != []
    ensures Flatten(s) == s[0] + Flatten(s[1..])
  {
    assert s == [s[0]] + s[1..];
    FlattenConcat([s[0]], s[1..]);
    assert [s[0]][..0] == [];
    assert Flatten([s[0]]) == [] + s[0] == s[0];
  }

  lemma NothingJoined(keys: seq<string>, ms: seq<Identity>)
    requires AreKeysOf(keys, ms)
    ensures |Flatten(keys)| == 0 <==> |keys| == 0
  {
    if |keys| > 0 {
      FlattenFirst(keys);
    }
  }

  lemma {:induction false} JoinedKeysSplit(a: seq<string>, b: seq<string>, ms: seq<Identity>)
    requires PrefixFree(ms) && AreKeysOf(a, ms) && AreKeysOf(b, ms)
    requires Flatten(a) == Flatten(b)
    ensures a == b
  {
    NothingJoined(a, ms);
    NothingJoined(b, ms);
    if |a| > 0 {
      var x, y := a[1..], b[1..];
      FlattenFirst(a);
      FlattenFirst(b);
      FirstKeysAgree(a[0], b[0], Flatten(x), Flatten(y), ms);
      JoinedKeysSplit(x, y, ms);
      assert a == [a[0]] + x && b == [b[0]] + y;
    }
  }

  lemma FirstKeysAgree(a: string, b: string, x: string, y: string, ms: seq<Identity>)
    requires PrefixFree(ms) && IsKeyOf(a, ms) && IsKeyOf(b, ms) && a + x == b + y
    ensures a == b && x == y
  {
    var m :| m in ms && a == MemberKeyText(m);
    var n :| n in ms && b == MemberKeyText(n);
    FirstKeyIsFixed(m, n, x, y);
  }

  lemma {:induction false} KeysCountMembers(ms: seq<Identity>, m: Identity)
    ensures multiset(KeyTexts(ms))[MemberKeyText(m)] == multiset(ms)[m]
  {
    if ms != [] {
      var front, last := ms[..|ms| - 1], ms[|ms| - 1];
      KeysCountMembers(front, m);
      assert ms == front + [last];
      assert KeyTexts(ms) == KeyTexts(front) + [MemberKeyText(last)];
      if MemberKeyText(last) == MemberKeyText(m) {
        PrintedWithoutUnderscore(last.permission, m.permission, last.invitee, m.invitee);
      }
    }
  }

  lemma {:induction false} KeyTextsAreKeys(ms: seq<Identity>, all: seq<Identity>)
    requires forall m :: m in ms ==> m in all
    ensures AreKeysOf(KeyTexts(ms), all)
  {
    if ms != [] {
      KeyTextsAreKeys(ms[..|ms| - 1], all);
      assert ms[|ms| - 1] in all;
    }
  }

  lemma PermutedKeys(keys: seq<string>, permuted: seq<string>, ms: seq<Identity>)
    requires AreKeysOf(keys, ms) && multiset(permuted) == multiset(keys)
    ensures AreKeysOf(permuted, ms)
  {
    forall i | 0 <= i < |permuted|
      ensures IsKeyOf(permuted[i], ms)
    {
      assert permuted[i] in multiset(keys);
      assert permuted[i] in keys;
    }
  }

  /**
   Among prefix-free addresses, with any permissions, the hashed text is the same if and only if the members
   are. So a collision needs one member whose address is a proper prefix of another's.
   */
  lemma HashInputTellsMembersApart(ownerSignature: string, ms: seq<Identity>, ns: seq<Identity>)
    requires PrefixFree(ms + ns)
    ensures HashInput(ownerSignature, ms) == HashInput(ownerSignature, ns) <==> multiset(ms) == multiset(ns)
  {
    var a, b := Sort(KeyTexts(ms)), Sort(KeyTexts(ns));
    if multiset(ms) == multiset(ns) {
      MapOfPermutation((m: Identity) => MemberKeyText(m), ms, ns);
      SortedIsUnique(a, b);
    } else {
      KeyTextsAreKeys(ms, ms + ns);
      KeyTextsAreKeys(ns, ms + ns);
      PermutedKeys(KeyTexts(ms), a, ms + ns);
      PermutedKeys(KeyTexts(ns), b, ms + ns);
      if HashInput(ownerSignature, ms) == HashInput(ownerSignature, ns) {
        SameAfterPrefix(ownerSignature, Flatten(a), Flatten(b));
        JoinedKeysSplit(a, b, ms + ns);
        SameKeysSameMembers(ms, ns);
      }
    }
  }

  lemma SameAfterPrefix(prefix: string, x: string, y: string)
    requires prefix + x == prefix + y
    ensures x == y
  {
    assert (prefix + x)[|prefix|..] == x && (prefix + y)[|prefix|..] == y;
  }

  lemma SameKeysSameMembers(ms: seq<Identity>, ns: seq<Identity>)
    requires multiset(KeyTexts(ms)) == multiset(KeyTexts(ns))
    ensures multiset(ms) == multiset(ns)
  {
    forall m: Identity
      ensures multiset(ms)[m] == multiset(ns)[m]
    {
      KeysCountMembers(ms, m);
      KeysCountMembers(ns, m);
    }
  }

  /** With a hash that does not collide on the two texts, the same holds of the versions themselves. */
  lemma VersionTellsMembersApart(md5: string -> string, commits: Option<nat>, ownerSignature: string,
                                 ms: seq<Identity>, ns: seq<Identity>)
    requires PrefixFree(ms + ns)
    requires var x, y := HashInput(ownerSignature, ms), HashInput(ownerSignature, ns); md5(x) == md5(y) ==> x == y
    ensures GenGroupVersion(md5, commits, ownerSignature, ms) == GenGroupVersion(md5, commits, ownerSignature, ns)
       <==> multiset(ms) == multiset(ns)
  {
    var x, y := md5(HashInput(ownerSignature, ms)), md5(HashInput(ownerSignature, ns));
    HashInputTellsMembersApart(ownerSignature, ms, ns);
    var prefix := CommitText(commits) + ".";
    assert (prefix + x)[|prefix|..] == x && (prefix + y)[|prefix|..] == y;
  }

  /** Without that: keys are joined with no separator, so an address that continues another's can hide a member. */
  lemma VersionsCanCoincide(md5: string -> string, commits: Option<nat>, ownerSignature: string)
    ensures var two, one := [Identity(10, "a"), Identity(10, "b")], [Identity(10, "a10_b")];
            && multiset(two) != multiset(one)
            && GenGroupVersion(md5, commits, ownerSignature, two) == GenGroupVersion(md5, commits, ownerSignature, one)
  {
    var a, b, ab := Identity(10, "a"), Identity(10, "b"), Identity(10, "a10_b");
    assert |multiset{a, b}| == 2 && |multiset{ab}| == 1;
    NormalKey("a");
    NormalKey("b");
    NormalKey("a10_b");
    assert "10_a" + "10_b" == "10_a10_b";
    SharedPrefix("10_", "a", "b");
    JoinedKeysHashAlike(ownerSignature, a, b, ab);
  }

  // --- Reading the commit number back ---

  function BeforeDot(version: string): string {
    if version == "" || version[0] == '.' then "" else [version[0]] + BeforeDot(version[1..])
  }

  /** `parseInt(version.split(".")[0] || "1") + 1`. */
  function NextCommit(version: string): Option<nat> {
    var head := BeforeDot(version);
    var n := ParseNat(if head == "" then "1" else head);
    if n.Some? then Some(n.value + 1) else None
  }

  lemma {:induction false} BeforeFirstDot(digits: string, rest: string)
    requires AllDigits(digits)
    ensures BeforeDot(digits + "." + rest) == digits
  {
    var whole := digits + "." + rest;
    if digits != "" {
      BeforeFirstDot(digits[1..], rest);
      assert whole[1..] == digits[1..] + "." + rest;
    }
  }

  /** A version without a commit number counts as the first; one that starts with something else has no next. */
  lemma OddVersions(version: string)
    ensures version == "" || version[0] == '.' ==> NextCommit(version) == Some(2)
    ensures version != "" && version[0] != '.' && !IsDigit(version[0]) ==> NextCommit(version) == None
  {
    PrintThenParse(1, "");
    assert PrintNat(1) + "" == "1";
  }

  /** Text that starts with a printed commit number, as every version does. */
  ghost predicate HasCommit(version: string, n: nat) {
    exists hash :: version == PrintNat(n) + "." + hash
  }

  lemma GeneratedHasCommit(md5: string -> string, n: nat, ownerSignature: string, ms: seq<Identity>)
    ensures HasCommit(GenGroupVersion(md5, Some(n), ownerSignature, ms), n)
  {
  }

  /** A version printed with commit `n` is followed by commit `n + 1`. */
  lemma CommitFollows(version: string, n: nat)
    requires HasCommit(version, n)
    ensures NextCommit(version) == Some(n + 1)
  {
    var hash :| version == PrintNat(n) + "." + hash;
    BeforeFirstDot(PrintNat(n), hash);
    PrintThenParse(n, "");
    assert PrintNat(n) + "" == PrintNat(n);
  }
}
