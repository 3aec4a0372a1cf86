/** `advertiserIdFieldImplementation`: the dynamic choice list of the
    advertiser field. With the GraphQL request set aside, what remains is a
    list pipeline over the `scopesByAdvertiser` nodes: keep those whose scopes
    include `WRITE`, map each to `{value: id, label: name}`, sort by label;
    and a catch branch that turns any failure into an empty list with an
    error record.

    The request's result is the input `LookupResult`; `localeCompare` is the
    comparator parameter `le`, read as "`a.localeCompare(b) <= 0`". */
module AdvertiserLookup {
  import opened Wrappers

  datatype Advertiser = Advertiser(id: string, name: string)

  /** One entry of `scopesByAdvertiser.nodes`. */
  datatype ScopeNode = ScopeNode(advertiser: Advertiser, scopes: seq<string>)

  /** A choice `{value, label}`; `label` is a keyword here, hence `caption`. */
  datatype Choice = Choice(value: string, caption: string)

  datatype FieldError = FieldError(message: string, code: string)

  /** The dynamic field response: `nextPage` and `error` are missing on
      success. */
  datatype DynamicFieldResponse = DynamicFieldResponse(
    choices: seq<Choice>, nextPage: Option<string>, error: Option<FieldError>)

  /** What the token-info request ends in: the nodes, or a thrown error with
      its optional `message` and optional numeric `status`. */
  datatype LookupResult =
    | Success(nodes: seq<ScopeNode>)
    | Failure(message: Option<string>, status: Option<int>)

  const WriteScope: string := "WRITE"

  const UnknownError: string := "Unknown error"

  // ---------------------------------------------------------------------------
  // filter and map

  /** `nodes.filter(entry => entry.scopes.includes('WRITE'))`. */
  function WritableNodes(nodes: seq<ScopeNode>): (r: seq<ScopeNode>)
    ensures forall n :: n in r <==> n in nodes && WriteScope in n.scopes
    ensures |r| <= |nodes|
  {
    if nodes == [] then []
    else if WriteScope in nodes[0].scopes then [nodes[0]] + WritableNodes(nodes[1..])
    else WritableNodes(nodes[1..])
  }

  /** Each node with `WRITE` is kept as often as it occurs, and no other
      node is kept. */
  lemma {:induction false} WritableNodesCounts(nodes: seq<ScopeNode>)
    ensures forall n ::
              multiset(WritableNodes(nodes))[n] ==
              (if WriteScope in n.scopes then multiset(nodes)[n] else 0)
  {
    if nodes != [] {
      WritableNodesCounts(nodes[1..]);
      assert nodes == [nodes[0]] + nodes[1..];
    }
  }

  /** One step of the filter: the head is kept exactly when it has `WRITE`. */
  lemma WritableNodesCons(x: ScopeNode, t: seq<ScopeNode>)
    ensures WritableNodes([x] + t) == (if WriteScope in x.scopes then [x] else []) + WritableNodes(t)
  {
    assert ([x] + t)[0] == x && ([x] + t)[1..] == t;
  }

  /** The filter works piece by piece, so kept nodes stay in input order. */
  lemma {:induction false} WritableNodesAppend(a: seq<ScopeNode>, b: seq<ScopeNode>)
    ensures WritableNodes(a + b) == WritableNodes(a) + WritableNodes(b)
  {
    if a != [] {
      var x, t := a[0], a[1..];
      assert a == [x] + t;
      assert a + b == [x] + (t + b);
      WritableNodesAppend(t, b);
      WritableNodesCons(x, t + b);
      WritableNodesCons(x, t);
    } else {
      assert a + b == b;
    }
  }

  /** `{value: advertiser.id, label: advertiser.name}`. */
  function ToChoice(n: ScopeNode): Choice
  {
    Choice(n.advertiser.id, n.advertiser.name)
  }

  /** `.map(ToChoice)`: one choice per node, in the same order. */
  function ToChoices(nodes: seq<ScopeNode>): (r: seq<Choice>)
    ensures |r| == |nodes|
    ensures forall i :: 0 <= i < |nodes| ==> r[i] == ToChoice(nodes[i])
  {
    if nodes == [] then [] else [ToChoice(nodes[0])] + ToChoices(nodes[1..])
  }

  // ---------------------------------------------------------------------------
  // sort by label

  /** `localeCompare` answers every pair one way or the other. */
  ghost predicate Total(le: (string, string) -> bool)
  {
    forall a, b :: le(a, b) || le(b, a)
  }

  ghost predicate Transitive(le: (string, string) -> bool)
  {
    forall a, b, c :: le(a, b) && le(b, c) ==> le(a, c)
  }

  /** Each label is at most its successor's. */
  predicate SortedByLabel(cs: seq<Choice>, le: (string, string) -> bool)
  {
    |cs| < 2 || (le(cs[0].caption, cs[1].caption) && SortedByLabel(cs[1..], le))
  }

  /** Puts `c` in front of the first choice it does not follow, so that `c`
      stays ahead of the choices with an equal label. */
  function InsertByLabel(c: Choice, cs: seq<Choice>, le: (string, string) -> bool): (r: seq<Choice>)
    requires Total(le)
    ensures multiset(r) == multiset(cs) + multiset{c}
    ensures |r| == |cs| + 1
    ensures r[0] == c || (cs != [] && r[0] == cs[0])
    ensures SortedByLabel(cs, le) ==> SortedByLabel(r, le)
  {
    if cs == [] then [c]
    else if le(c.caption, cs[0].caption) then [c] + cs
    else
      var rest := InsertByLabel(c, cs[1..], le);
      assert cs == [cs[0]] + cs[1..];
      [cs[0]] + rest
  }

  /** `.sort((a, b) => a.label.localeCompare(b.label))`, as an insertion sort
      that keeps choices with equal labels in their input order. */
  function SortByLabel(cs: seq<Choice>, le: (string, string) -> bool): (r: seq<Choice>)
    requires Total(le)
    ensures multiset(r) == multiset(cs)
    ensures SortedByLabel(r, le)
  {
    if cs == [] then []
    else
      assert cs == [cs[0]] + cs[1..];
      InsertByLabel(cs[0], SortByLabel(cs[1..], le), le)
  }

  /** Under a transitive comparator, sorted means every earlier label is at
      most every later one. */
  lemma {:induction false} SortedIsPairwise(cs: seq<Choice>, le: (string, string) -> bool)
    requires Transitive(le)
    requires SortedByLabel(cs, le)
    ensures forall i, j :: 0 <= i < j < |cs| ==> le(cs[i].caption, cs[j].caption)
  {
    if |cs| >= 2 {
      SortedIsPairwise(cs[1..], le);
      forall i, j | 0 <= i < j < |cs|
        ensures le(cs[i].caption, cs[j].caption)
      {
        if i > 0 {
          assert cs[i] == cs[1..][i - 1] && cs[j] == cs[1..][j - 1];
        } else if j > 1 {
          assert cs[1] == cs[1..][0] && cs[j] == cs[1..][j - 1];
        }
      }
    }
  }

  // ---------------------------------------------------------------------------
  // The field implementation

  /** The choice list of the `try` branch. */
  function Choices(nodes: seq<ScopeNode>, le: (string, string) -> bool): seq<Choice>
    requires Total(le)
  {
    SortByLabel(ToChoices(WritableNodes(nodes)), le)
  }

  /** The field's response: the choices on success; on failure no choices,
      an empty `nextPage` and the error's message and status, each defaulted
      to "Unknown error" when missing. */
  function FieldResponse(result: LookupResult, le: (string, string) -> bool): DynamicFieldResponse
    requires Total(le)
  {
    match result
    case Success(nodes) => DynamicFieldResponse(Choices(nodes, le), None, None)
    case Failure(message, status) =>
      DynamicFieldResponse([], Some(""), Some(FieldError(
        message.GetOr(UnknownError),
        match status
        case Some(code) => IntToString(code)
        case None => UnknownError)))
  }

  /** A choice comes from a node exactly when some node maps to it. */
  lemma {:induction false} InToChoices(nodes: seq<ScopeNode>, c: Choice)
    ensures c in ToChoices(nodes) <==> exists n :: n in nodes && c == ToChoice(n)
  {
    if c in ToChoices(nodes) {
      var i :| 0 <= i < |nodes| && ToChoices(nodes)[i] == c;
      assert nodes[i] in nodes;
    }
  }

  /** On success the choices are exactly the nodes with `WRITE` scope, each
      mapped to id and name, as a permutation of the filtered-and-mapped list
      (nothing added, nothing dropped), sorted by label; no `nextPage` and no
      error are set. */
  lemma SuccessResponse(nodes: seq<ScopeNode>, le: (string, string) -> bool)
    requires Total(le)
    ensures var r := FieldResponse(Success(nodes), le);
      && multiset(r.choices) == multiset(ToChoices(WritableNodes(nodes)))
      && SortedByLabel(r.choices, le)
      && r.nextPage == None && r.error == None
    ensures forall c :: c in FieldResponse(Success(nodes), le).choices <==>
      exists n :: n in nodes && WriteScope in n.scopes && c == ToChoice(n)
  {
    var mapped := ToChoices(WritableNodes(nodes));
    var r := FieldResponse(Success(nodes), le);
    forall c
      ensures c in r.choices <==> exists n :: n in nodes && WriteScope in n.scopes && c == ToChoice(n)
    {
      assert c in r.choices <==> c in multiset(r.choices);
      assert c in mapped <==> c in multiset(mapped);
      InToChoices(WritableNodes(nodes), c);
    }
  }

  /** On failure: no choices, `nextPage` is empty, the message is the error's
      own (even an empty one) or "Unknown error" when there is none, and the
      code is the status written in decimal, or "Unknown error" when there
      is none. A non-negative status is read back from its code. */
  lemma FailureResponse(message: Option<string>, status: Option<int>, le: (string, string) -> bool)
    requires Total(le)
    ensures var r := FieldResponse(Failure(message, status), le);
      && r.choices == [] && r.nextPage == Some("") && r.error.Some?
      && (r.error.value.message == if message.Some? then message.value else UnknownError)
      && (status.None? ==> r.error.value.code == UnknownError)
      && (status.Some? && status.value >= 0 ==>
            IsDecimal(r.error.value.code) && DecimalValue(r.error.value.code) == status.value)
      && (status.Some? && status.value < 0 ==>
            r.error.value.code[0] == '-' && DecimalValue(r.error.value.code[1..]) == -status.value)
  {
    if status.Some? {
      var code := status.value;
      if code >= 0 {
        DecimalRoundTrip(code);
      } else {
        DecimalRoundTrip(-code);
        assert IntToString(code)[1..] == NatToString(-code);
      }
    }
  }

  // ---------------------------------------------------------------------------
  // Number.prototype.toString for integers

  function DigitChar(d: nat): char
    requires d < 10
  {
    "0123456789"[d]
  }

  predicate IsDigit(c: char)
  {
    '0' <= c <= '9'
  }

  /** A non-empty run of digits without a superfluous leading zero. */
  predicate IsDecimal(s: string)
  {
    && s != []
    && (forall i :: 0 <= i < |s| ==> IsDigit(s[i]))
    && (s[0] == '0' ==> |s| == 1)
  }

  /** The number a run of digits denotes. */
  function DecimalValue(s: string): nat
  {
    if s == [] then 0
    else
      var d := s[|s| - 1] as int - '0' as int;
      DecimalValue(s[..|s| - 1]) * 10 + (if 0 <= d < 10 then d else 0)
  }

  /** The decimal text of a natural number. */
  function NatToString(n: nat): string
    decreases n
  {
    if n < 10 then [DigitChar(n)] else NatToString(n / 10) + [DigitChar(n % 10)]
  }

  /** The decimal text of an integer, with a leading `-` when negative. */
  function IntToString(i: int): string
  {
    if i < 0 then "-" + NatToString(-i) else NatToString(i)
  }

  /** The decimal text is well formed and denotes the number it came from. */
  lemma {:induction false} DecimalRoundTrip(n: nat)
    ensures IsDecimal(NatToString(n))
    ensures DecimalValue(NatToString(n)) == n
    decreases n
  {
    var s := NatToString(n);
    if n < 10 {
      assert s == [DigitChar(n)];
      assert s[..0] == [];
    } else {
      DecimalRoundTrip(n / 10);
      var p := NatToString(n / 10);
      assert s == p + [DigitChar(n % 10)];
      assert s[..|s| - 1] == p;
      assert s[0] == p[0];
    }
  }
}
