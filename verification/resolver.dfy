/** The accept-list resolver: turns the caller's accept tokens into the four
    lists the classifier consults, and the console diagnostics it emits
    about them. */
module Resolver {
  import opened Wrappers
  import opened Strings
  import opened StringOrder
  import opened FileTypes

  /** The four lists computed from the accept tokens. */
  datatype Resolved = Resolved(
    allowedFileMimes: seq<string>,
    allowedUnsupportedFileMimes: seq<string>,
    allowedUnsupportedFileExtensions: seq<string>,
    invalidFileTypes: seq<string>)
  {
    /** Appends each of `other`'s lists to the matching list of this one. */
    function Append(other: Resolved): Resolved {
      Resolved(
        allowedFileMimes + other.allowedFileMimes,
        allowedUnsupportedFileMimes + other.allowedUnsupportedFileMimes,
        allowedUnsupportedFileExtensions + other.allowedUnsupportedFileExtensions,
        invalidFileTypes + other.invalidFileTypes)
    }
  }

  /** The lists before any token has been processed. */
  const Empty: Resolved := Resolved([], [], [], [])

  /** Names one of the four lists, so that a property can be stated once for
      all of them. */
  datatype ListKind = AllowedMimes | UnsupportedMimes | UnsupportedExtensions | Invalid

  function Get(r: Resolved, k: ListKind): seq<string> {
    match k
    case AllowedMimes => r.allowedFileMimes
    case UnsupportedMimes => r.allowedUnsupportedFileMimes
    case UnsupportedExtensions => r.allowedUnsupportedFileExtensions
    case Invalid => r.invalidFileTypes
  }

  /** A dotted extension: a leading `.` and no other `.`. */
  predicate IsExtensionToken(t: string) {
    |t| > 0 && t[0] == '.' && '.' !in t[1..]
  }

  /** What one accept token, lower-cased, pushes onto the four lists: a table
      key pushes its MIME types; a token the table already knows otherwise
      pushes nothing; any other token pushes itself onto the MIME lists, the
      extension list or the invalid list according to its shape. */
  function Contribution(incoming: string): (c: Resolved)
    ensures WellShaped(c)
    ensures forall x :: x in c.allowedFileMimes ==> x in SupportedMimes || x == ToLower(incoming)
    ensures forall k, x :: k != AllowedMimes && x in Get(c, k) ==> x == ToLower(incoming)
    ensures |c.allowedUnsupportedFileExtensions| + |c.invalidFileTypes| <= 1
  {
    var t := ToLower(incoming);
    if t in Table then
      KeyContributionWellShaped(t);
      SupportedListsMatchTable();
      Resolved(Table[t], [], [], [])
    else if t !in SupportedMimes && t !in SupportedExtensions then
      SupportedListsMatchTable();
      UnknownContributionWellShaped(t);
      if '/' in t then Resolved([t], [t], [], [])
      else if IsExtensionToken(t) then Resolved([], [], [t], [])
      else Resolved([], [], [], [t])
    else Empty
  }

  /** Some token of `tokens` contributes `x` to list `k`. */
  predicate ContributedBy(tokens: seq<string>, k: ListKind, x: string) {
    exists t :: t in tokens && x in Get(Contribution(t), k)
  }

  /** The loop over the already sorted tokens, one token after another: each
      list ends up holding exactly what some processed token contributes to
      it, and the lists stay well shaped throughout. */
  function ResolveSorted(tokens: seq<string>): (r: Resolved)
    ensures WellShaped(r)
    ensures forall k, x :: x in Get(r, k) <==> ContributedBy(tokens, k, x)
    decreases |tokens|
  {
    if |tokens| == 0 then Empty
    else
      var init := tokens[..|tokens| - 1];
      var last := tokens[|tokens| - 1];
      var prev := ResolveSorted(init);
      AppendWellShaped(prev, Contribution(last));
      AppendContribution(init, last, prev);
      assert tokens == init + [last];
      prev.Append(Contribution(last))
  }

  /** Processing one more token adds exactly that token's contribution to the
      per-token union. */
  lemma AppendContribution(init: seq<string>, last: string, prev: Resolved)
    requires forall k, x :: x in Get(prev, k) <==> ContributedBy(init, k, x)
    ensures forall k, x :: x in Get(prev.Append(Contribution(last)), k) <==> ContributedBy(init + [last], k, x)
  {
    var tokens := init + [last];
    forall k, x
      ensures x in Get(prev.Append(Contribution(last)), k) <==> ContributedBy(tokens, k, x)
    {
      assert Get(prev.Append(Contribution(last)), k) == Get(prev, k) + Get(Contribution(last), k);
      if ContributedBy(tokens, k, x) {
        var t :| t in tokens && x in Get(Contribution(t), k);
        if t != last {
          assert t in init;
        }
      }
      if x in Get(prev, k) {
        var t :| t in init && x in Get(Contribution(t), k);
        assert t in tokens;
      }
    }
  }

  /** Two token lists with the same elements contribute the same entries. */
  lemma SameTokensContributeAlike(a: seq<string>, b: seq<string>)
    requires multiset(a) == multiset(b)
    ensures forall k, x :: ContributedBy(a, k, x) <==> ContributedBy(b, k, x)
  {
    forall t
      ensures t in a <==> t in b
    {
      assert t in a <==> t in multiset(a);
      assert t in b <==> t in multiset(b);
    }
  }

  /** Resolution of the caller's accept list: sort a copy, then process. The
      result is a per-token union, so `x` is in list `k` exactly when some
      accept token contributes it, wherever that token stands; and the lists
      keep their shape invariants, which imply that the unsupported MIME list
      is contained in the allowed MIME list and that the extension list, the
      invalid list and the MIME lists never share an entry. */
  function Resolve(accept: seq<string>): (r: Resolved)
    ensures WellShaped(r)
    ensures forall k, x :: x in Get(r, k) <==> ContributedBy(accept, k, x)
    ensures forall x :: x in r.allowedFileMimes ==> x !in r.allowedUnsupportedFileExtensions && x !in r.invalidFileTypes
    ensures forall x :: x in r.allowedUnsupportedFileExtensions ==> x !in r.invalidFileTypes
  {
    var sorted := Sort(accept);
    SameTokensContributeAlike(sorted, accept);
    ResolveSorted(sorted)
  }

  /** The accept list in force: the caller's when given, and otherwise the
      `FileType` values, which are exactly the curated extensions. */
  function EffectiveAccept(accept: Option<seq<string>>): (tokens: seq<string>)
    ensures accept.Some? ==> tokens == accept.value
    ensures accept.None? ==> forall t :: t in tokens <==> t in Table
  {
    accept.GetOr(DefaultAccept())
  }

  /** Resolution ignores the order of the accept tokens: any permutation
      yields the very same four lists, entry for entry. */
  lemma ResolveIgnoresOrder(a: seq<string>, b: seq<string>)
    requires multiset(a) == multiset(b)
    ensures Resolve(a) == Resolve(b)
  {
    SortIgnoresOrder(a, b);
  }

  /** The shape facts the four lists always satisfy. */
  predicate WellShaped(r: Resolved) {
    && (forall k, x :: x in Get(r, k) ==> IsLower(x))
    && (forall x :: x in r.allowedUnsupportedFileMimes ==> x in r.allowedFileMimes)
    && (forall x :: x in r.allowedFileMimes ==> '/' in x)
    && (forall x :: x in r.allowedUnsupportedFileMimes ==> x !in SupportedMimes)
    && (forall x :: x in r.allowedUnsupportedFileExtensions ==> IsExtensionToken(x) && '/' !in x && x !in Table)
    && (forall x :: x in r.invalidFileTypes ==> !IsExtensionToken(x) && '/' !in x && x !in Table)
  }

  /** A table key contributes only curated MIME types. */
  lemma KeyContributionWellShaped(t: string)
    requires t in Table
    ensures WellShaped(Resolved(Table[t], [], [], []))
  {
    TableShapes();
    SupportedListsMatchTable();
    var c := Resolved(Table[t], [], [], []);
    forall x | x in Table[t]
      ensures x in SupportedMimes
    {
    }
    forall k, x | x in Get(c, k)
      ensures IsLower(x)
    {
      assert x in SupportedMimes;
    }
  }

  /** A token outside the table contributes itself to lists matching its
      shape. */
  lemma UnknownContributionWellShaped(t: string)
    requires IsLower(t) && t !in Table && t !in SupportedMimes
    ensures '/' in t ==> WellShaped(Resolved([t], [t], [], []))
    ensures '/' !in t && IsExtensionToken(t) ==> WellShaped(Resolved([], [], [t], []))
    ensures '/' !in t && !IsExtensionToken(t) ==> WellShaped(Resolved([], [], [], [t]))
  {
  }

  lemma AppendWellShaped(r: Resolved, c: Resolved)
    requires WellShaped(r) && WellShaped(c)
    ensures WellShaped(r.Append(c))
  {
    var s := r.Append(c);
    forall k, x | x in Get(s, k)
      ensures IsLower(x)
    {
      assert Get(s, k) == Get(r, k) + Get(c, k);
    }
  }

  /** Resolving a single token is just that token's contribution. */
  lemma ResolveSingle(t: string)
    ensures Resolve([t]) == Contribution(t)
  {
    assert [t][1..] == [];
    assert Sort([t]) == Insert(t, []) == [t];
    assert [t][..0] == [];
    assert ResolveSorted([t]) == Empty.Append(Contribution(t));
    var c := Contribution(t);
    assert Empty.Append(c) == Resolved([] + c.allowedFileMimes, [] + c.allowedUnsupportedFileMimes,
      [] + c.allowedUnsupportedFileExtensions, [] + c.invalidFileTypes);
  }

  /** A table key, in any letter case, adds exactly that key's MIME types to
      the allowed MIME list and nothing to the other three lists. */
  lemma ResolveTableKey(t: string)
    requires ToLower(t) in Table
    ensures Resolve([t]) == Resolved(Table[ToLower(t)], [], [], [])
  {
    ResolveSingle(t);
  }

  /** A token equal to a curated MIME type, such as "image/png", adds nothing
      to any list. */
  lemma ResolveKnownMime(t: string)
    requires ToLower(t) in SupportedMimes
    ensures Resolve([t]) == Empty
  {
    TableShapes();
    ResolveSingle(t);
  }

  /** Any other token lands in exactly one place: a token with a `/` in both
      MIME lists, a dotted extension in the unsupported-extension list, and
      anything else in the invalid list. */
  lemma ResolveUncuratedToken(t: string)
    requires ToLower(t) !in Table && ToLower(t) !in SupportedMimes
    ensures var u := ToLower(t);
      && ('/' in u ==> Resolve([t]) == Resolved([u], [u], [], []))
      && ('/' !in u && IsExtensionToken(u) ==> Resolve([t]) == Resolved([], [], [u], []))
      && ('/' !in u && !IsExtensionToken(u) ==> Resolve([t]) == Resolved([], [], [], [u]))
  {
    SupportedListsMatchTable();
    ResolveSingle(t);
  }

  /** A table key contributes exactly its table entry. */
  lemma KeyContribution(t: string)
    requires t in Table
    ensures Contribution(t) == Resolved(Table[t], [], [], [])
  {
    TableShapes();
    assert ToLower(t) == t;
  }

  /** An accept list made only of table keys fills only the allowed MIME
      list, with exactly the MIME types of its keys, and so draws no
      diagnostic. */
  lemma KeysOnlyResolution(accept: seq<string>)
    requires forall t :: t in accept ==> t in Table
    ensures var r := Resolve(accept);
      && r.allowedUnsupportedFileMimes == []
      && r.allowedUnsupportedFileExtensions == []
      && r.invalidFileTypes == []
      && (forall m :: m in r.allowedFileMimes <==> exists t :: t in accept && m in Table[t])
      && Diagnostics(r) == []
  {
    var r := Resolve(accept);
    forall k | k != AllowedMimes
      ensures Get(r, k) == []
    {
      if |Get(r, k)| > 0 {
        var x := Get(r, k)[0];
        assert ContributedBy(accept, k, x);
        var t :| t in accept && x in Get(Contribution(t), k);
        KeyContribution(t);
      }
    }
    assert Get(r, UnsupportedMimes) == [] && Get(r, UnsupportedExtensions) == [] && Get(r, Invalid) == [];
    forall m
      ensures m in r.allowedFileMimes <==> exists t :: t in accept && m in Table[t]
    {
      if m in r.allowedFileMimes {
        assert ContributedBy(accept, AllowedMimes, m);
        var t :| t in accept && m in Get(Contribution(t), AllowedMimes);
        KeyContribution(t);
      }
      if exists t :: t in accept && m in Table[t] {
        var t :| t in accept && m in Table[t];
        KeyContribution(t);
        assert m in Get(Contribution(t), AllowedMimes);
      }
    }
  }

  /** With the default accept list every token is a table key: the three
      uncurated lists are empty, no diagnostic is emitted, and the allowed
      MIME list holds exactly the curated MIME types. */
  lemma DefaultResolution(accept: seq<string>)
    requires accept == EffectiveAccept(None)
    ensures var r := Resolve(accept);
      && r.allowedUnsupportedFileMimes == []
      && r.allowedUnsupportedFileExtensions == []
      && r.invalidFileTypes == []
      && (forall m :: m in r.allowedFileMimes <==> m in SupportedMimes)
      && Diagnostics(r) == []
  {
    SupportedListsMatchTable();
    KeysOnlyResolution(accept);
  }

  datatype Severity = Error | Warning

  /** One console message: `console.error` or `console.warn`. */
  datatype Diagnostic = Diagnostic(severity: Severity, message: string)

  function InvalidMessage(t: string): string {
    "ERROR: " + t + " is not a valid file extension or MIME type."
  }

  function UnsupportedMessage(t: string): string {
    "WARNING: The file type " + t + " is not natively supported."
  }

  function MessageFor(severity: Severity, t: string): string {
    match severity
    case Error => InvalidMessage(t)
    case Warning => UnsupportedMessage(t)
  }

  /** One diagnostic of the given severity per token, in token order. */
  function Announce(severity: Severity, tokens: seq<string>): seq<Diagnostic>
    decreases |tokens|
  {
    if |tokens| == 0 then []
    else
      [Diagnostic(severity, MessageFor(severity, tokens[0]))] + Announce(severity, tokens[1..])
  }

  /** The diagnostics effect: the first loop logs an error per invalid token,
      the second a warning per unsupported MIME type and then per unsupported
      extension. Position by position, the errors come first and name the
      invalid tokens in order, and the warnings follow and name the
      unsupported tokens in order. */
  function Diagnostics(r: Resolved): (d: seq<Diagnostic>)
    ensures var unsupported := r.allowedUnsupportedFileMimes + r.allowedUnsupportedFileExtensions;
      && |d| == |r.invalidFileTypes| + |unsupported|
      && (forall i :: 0 <= i < |r.invalidFileTypes| ==>
            d[i] == Diagnostic(Error, InvalidMessage(r.invalidFileTypes[i])))
      && (forall i :: 0 <= i < |unsupported| ==>
            d[|r.invalidFileTypes| + i] == Diagnostic(Warning, UnsupportedMessage(unsupported[i])))
  {
    var unsupported := r.allowedUnsupportedFileMimes + r.allowedUnsupportedFileExtensions;
    AnnounceEach(Error, r.invalidFileTypes);
    AnnounceEach(Warning, unsupported);
    Announce(Error, r.invalidFileTypes) + Announce(Warning, unsupported)
  }

  /** `Announce` yields, at each position, the diagnostic for the token at
      that position. */
  lemma {:induction false} AnnounceEach(severity: Severity, tokens: seq<string>)
    ensures |Announce(severity, tokens)| == |tokens|
    ensures forall i :: 0 <= i < |tokens| ==>
      Announce(severity, tokens)[i] == Diagnostic(severity, MessageFor(severity, tokens[i]))
    decreases |tokens|
  {
    if |tokens| > 0 {
      AnnounceEach(severity, tokens[1..]);
    }
  }

  /** A message names its token unambiguously: different tokens give
      different messages. */
  lemma {:induction false} MessagesNameTheirToken(a: string, b: string)
    ensures InvalidMessage(a) == InvalidMessage(b) ==> a == b
    ensures UnsupportedMessage(a) == UnsupportedMessage(b) ==> a == b
  {
    var p, q := "ERROR: ", " is not a valid file extension or MIME type.";
    if InvalidMessage(a) == InvalidMessage(b) {
      assert a == InvalidMessage(a)[|p|..|p| + |a|];
      assert b == InvalidMessage(b)[|p|..|p| + |b|];
    }
    var p', q' := "WARNING: The file type ", " is not natively supported.";
    if UnsupportedMessage(a) == UnsupportedMessage(b) {
      assert a == UnsupportedMessage(a)[|p'|..|p'| + |a|];
      assert b == UnsupportedMessage(b)[|p'|..|p'| + |b|];
    }
  }
}
