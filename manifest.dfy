/** The document pass of the upgrade: the rewritten manifest is split on
    `---`, pieces without an `apiVersion` key are dropped, and each remaining
    piece is dispatched on its `kind`. A Deployment gets its selector's
    `matchLabels` overwritten with its pod template's labels, an Ingress gets
    its ownership fields set by a per-program fix, and any other piece is
    emitted verbatim behind `---`. The pieces' outputs are concatenated in
    input order.

    The YAML codec is not part of this model: decoding a piece into a typed
    record and encoding a record back to text are the fields of a `Codec`,
    whatever a decode error leaves in the record included. */
module Manifest {
  import opened Text

  /** The document separator the manifest is split on. */
  const Separator := "---"

  /** A piece is a resource only if it mentions this key. */
  const ApiVersionKey := "apiVersion"

  const DeploymentKind := "Deployment"
  const IngressKind := "Ingress"

  /** The label keys the Deployment shape declares; an absent label is "". */
  datatype Labels = Labels(app: string, track: string, tier: string, chart: string, release: string)

  /** A piece decoded into the Deployment shape: `metadata.labels`,
      `spec.selector.matchLabels` and `spec.template.metadata.labels`, with
      the container, volume and probe fields kept opaque in `podSpec`. */
  datatype Deployment = Deployment(
    apiVersion: string,
    kind: string,
    name: string,
    labels: Labels,
    replicas: int,
    matchLabels: Labels,
    templateLabels: Labels,
    podSpec: string)

  /** The YAML codec, with the Ingress shape `I` chosen by each program. */
  datatype Codec<!I> = Codec(
    decodeDeployment: string -> Deployment,
    encodeDeployment: Deployment -> string,
    decodeIngress: string -> I,
    encodeIngress: I -> string)

  /** A piece after dispatch on its kind. */
  datatype Doc<I> = DeploymentDoc(deployment: Deployment) | IngressDoc(ingress: I) | OtherDoc(raw: string)

  /** The kind is read from the Deployment-shaped decode; an Ingress is then
      decoded again into the Ingress shape. */
  function Classify<I>(codec: Codec<I>, piece: string): (doc: Doc<I>)
    ensures doc.DeploymentDoc? <==> codec.decodeDeployment(piece).kind == DeploymentKind
    ensures doc.IngressDoc? <==> codec.decodeDeployment(piece).kind == IngressKind
    ensures doc.OtherDoc? ==> doc.raw == piece
  {
    var d := codec.decodeDeployment(piece);
    if d.kind == DeploymentKind then DeploymentDoc(d)
    else if d.kind == IngressKind then IngressDoc(codec.decodeIngress(piece))
    else OtherDoc(piece)
  }

  /** A Deployment whose selector selects exactly its pod template's labels. */
  predicate SelectorMatchesTemplate(d: Deployment) {
    d.matchLabels == d.templateLabels
  }

  /** The Deployment fix: `spec.selector.matchLabels := spec.template.metadata.labels`. */
  function AlignSelector(d: Deployment): (r: Deployment)
    ensures SelectorMatchesTemplate(r)
    ensures r.(matchLabels := d.matchLabels) == d
  {
    d.(matchLabels := d.templateLabels)
  }

  /** The fix establishes selector/template agreement, changes no field but
      the selector, and leaves an already consistent Deployment as it is. */
  lemma AlignSelectorSpec(d: Deployment)
    ensures SelectorMatchesTemplate(AlignSelector(d))
    ensures AlignSelector(d).(matchLabels := d.matchLabels) == d
    ensures SelectorMatchesTemplate(d) ==> AlignSelector(d) == d
  {
  }

  /** The field fix for a classified document: the Deployment fix, the
      given Ingress fix, or nothing. The kind is kept. */
  function Normalize<I>(doc: Doc<I>, fixIngress: I -> I): (r: Doc<I>)
    ensures r.DeploymentDoc? <==> doc.DeploymentDoc?
    ensures r.IngressDoc? <==> doc.IngressDoc?
    ensures r.DeploymentDoc? ==> AlignSelector(doc.deployment) == r.deployment
    ensures r.IngressDoc? ==> r.ingress == fixIngress(doc.ingress)
    ensures doc.OtherDoc? ==> r == doc
  {
    match doc
    case DeploymentDoc(d) => DeploymentDoc(AlignSelector(d))
    case IngressDoc(i) => IngressDoc(fixIngress(i))
    case OtherDoc(raw) => doc
  }

  /** A re-encoded document is written behind `---` and a newline; a piece
      passed through keeps its own text, newline included, behind `---`. */
  function Render<I>(codec: Codec<I>, doc: Doc<I>): (r: string)
    ensures Separator <= r
  {
    match doc
    case DeploymentDoc(d) => Separator + "\n" + codec.encodeDeployment(d)
    case IngressDoc(i) => Separator + "\n" + codec.encodeIngress(i)
    case OtherDoc(raw) => Separator + raw
  }

  /** What one split piece contributes to the output. */
  function EmitPiece<I>(codec: Codec<I>, fixIngress: I -> I, piece: string): (out: string)
    ensures out == "" <==> !Contains(piece, ApiVersionKey)
    ensures out != "" ==> Separator <= out
  {
    if !Contains(piece, ApiVersionKey) then ""
    else Render(codec, Normalize(Classify(codec, piece), fixIngress))
  }

  /** The outputs of a sequence of pieces, concatenated in order. */
  function Recompose<I>(codec: Codec<I>, fixIngress: I -> I, pieces: seq<string>): string
    decreases |pieces|
  {
    if pieces == [] then ""
    else Recompose(codec, fixIngress, pieces[..|pieces| - 1]) + EmitPiece(codec, fixIngress, pieces[|pieces| - 1])
  }

  /** The output of the whole document pass over a manifest. */
  function NormalizedManifest<I>(codec: Codec<I>, fixIngress: I -> I, manifest: string): (r: string)
    ensures r == "" || Separator <= r
    ensures manifest == "" ==> r == ""
  {
    RecomposeOutput(codec, fixIngress, Split(manifest, Separator));
    assert manifest == "" ==> IndexOf(manifest, Separator).None?;
    assert manifest == "" ==> Split(manifest, Separator) == [""];
    Recompose(codec, fixIngress, Split(manifest, Separator))
  }

  /** The output is empty or starts with `---`; a lone empty piece gives
      nothing. */
  lemma {:induction false} RecomposeOutput<I>(codec: Codec<I>, fixIngress: I -> I, pieces: seq<string>)
    ensures Recompose(codec, fixIngress, pieces) == "" || Separator <= Recompose(codec, fixIngress, pieces)
    ensures pieces == [""] ==> Recompose(codec, fixIngress, pieces) == ""
    decreases |pieces|
  {
    if pieces != [] {
      var init := pieces[..|pieces| - 1];
      RecomposeOutput(codec, fixIngress, init);
      if pieces == [""] {
        assert init == [];
        assert !Contains("", ApiVersionKey);
      }
    }
  }

  /** The document pass loop: split, skip pieces without `apiVersion`,
      dispatch on kind, apply the field fix, append. */
  method NormalizeDocuments<I>(manifest: string, codec: Codec<I>, fixIngress: I -> I)
    returns (finalManifest: string)
    ensures finalManifest == NormalizedManifest(codec, fixIngress, manifest)
  {
    finalManifest := "";
    var parts := Split(manifest, Separator);
    var k := 0;
    while k < |parts|
      invariant 0 <= k <= |parts|
      invariant finalManifest == Recompose(codec, fixIngress, parts[..k])
    {
      var s := parts[k];
      RecomposeSnoc(codec, fixIngress, parts, k);
      if !Contains(s, ApiVersionKey) {
        k := k + 1;
        continue;
      }
      var deployment := codec.decodeDeployment(s);
      if deployment.kind == DeploymentKind {
        deployment := deployment.(matchLabels := deployment.templateLabels);
        finalManifest := finalManifest + (Separator + "\n" + codec.encodeDeployment(deployment));
      } else if deployment.kind == IngressKind {
        var ingress := codec.decodeIngress(s);
        ingress := fixIngress(ingress);
        finalManifest := finalManifest + (Separator + "\n" + codec.encodeIngress(ingress));
      } else {
        finalManifest := finalManifest + (Separator + s);
      }
      k := k + 1;
    }
    assert parts[..k] == parts;
  }

  lemma RecomposeSnoc<I>(codec: Codec<I>, fixIngress: I -> I, pieces: seq<string>, k: nat)
    requires k < |pieces|
    ensures Recompose(codec, fixIngress, pieces[..k + 1]) ==
            Recompose(codec, fixIngress, pieces[..k]) + EmitPiece(codec, fixIngress, pieces[k])
  {
    assert pieces[..k + 1][..k] == pieces[..k];
  }

  /** A piece without `apiVersion` contributes nothing. */
  lemma EmitDropped<I>(codec: Codec<I>, fixIngress: I -> I, piece: string)
    requires !Contains(piece, ApiVersionKey)
    ensures EmitPiece(codec, fixIngress, piece) == ""
  {
  }

  /** A resource piece of a kind other than Deployment and Ingress is
      emitted byte for byte behind `---`. */
  lemma EmitPassThrough<I>(codec: Codec<I>, fixIngress: I -> I, piece: string)
    requires Contains(piece, ApiVersionKey)
    requires codec.decodeDeployment(piece).kind != DeploymentKind && codec.decodeDeployment(piece).kind != IngressKind
    ensures EmitPiece(codec, fixIngress, piece) == Separator + piece
  {
  }

  /** A Deployment piece is re-encoded with its selector set to its decoded
      template labels and every other decoded field as it was. */
  lemma EmitDeployment<I>(codec: Codec<I>, fixIngress: I -> I, piece: string)
    requires Contains(piece, ApiVersionKey)
    requires codec.decodeDeployment(piece).kind == DeploymentKind
    ensures exists d: Deployment ::
      && EmitPiece(codec, fixIngress, piece) == Separator + "\n" + codec.encodeDeployment(d)
      && d.matchLabels == codec.decodeDeployment(piece).templateLabels
      && d.(matchLabels := codec.decodeDeployment(piece).matchLabels) == codec.decodeDeployment(piece)
  {
    var d := AlignSelector(codec.decodeDeployment(piece));
    assert EmitPiece(codec, fixIngress, piece) == Separator + "\n" + codec.encodeDeployment(d);
  }

  /** An Ingress piece is decoded in the Ingress shape, fixed, and re-encoded. */
  lemma EmitIngress<I>(codec: Codec<I>, fixIngress: I -> I, piece: string)
    requires Contains(piece, ApiVersionKey)
    requires codec.decodeDeployment(piece).kind == IngressKind
    ensures EmitPiece(codec, fixIngress, piece) ==
            Separator + "\n" + codec.encodeIngress(fixIngress(codec.decodeIngress(piece)))
  {
  }

  /** The output of consecutive runs of pieces is the concatenation of their
      outputs: pieces are emitted in input order. */
  lemma {:induction false} RecomposeAppend<I>(codec: Codec<I>, fixIngress: I -> I, a: seq<string>, b: seq<string>)
    ensures Recompose(codec, fixIngress, a + b) ==
            Recompose(codec, fixIngress, a) + Recompose(codec, fixIngress, b)
    decreases |b|
  {
    if b == [] {
      assert a + b == a;
    } else {
      var init, last := b[..|b| - 1], b[|b| - 1];
      RecomposeAppend(codec, fixIngress, a, init);
      assert (a + b)[..|a + b| - 1] == a + init;
      assert (a + b)[|a + b| - 1] == last;
      var ra, ri, e := Recompose(codec, fixIngress, a), Recompose(codec, fixIngress, init), EmitPiece(codec, fixIngress, last);
      assert Recompose(codec, fixIngress, a + b) == (ra + ri) + e;
      assert Recompose(codec, fixIngress, b) == ri + e;
      assert (ra + ri) + e == ra + (ri + e);
    }
  }

  /** The pieces that carry `apiVersion`, in order. */
  function Resources(pieces: seq<string>): (r: seq<string>)
    ensures forall k :: 0 <= k < |r| ==> Contains(r[k], ApiVersionKey)
    ensures forall k :: 0 <= k < |pieces| && Contains(pieces[k], ApiVersionKey) ==> pieces[k] in r
    decreases |pieces|
  {
    if pieces == [] then []
    else
      var last := pieces[|pieces| - 1];
      Resources(pieces[..|pieces| - 1]) + (if Contains(last, ApiVersionKey) then [last] else [])
  }

  /** Dropping the pieces without `apiVersion` beforehand changes nothing:
      they are absent from the output. */
  lemma {:induction false} RecomposeResources<I>(codec: Codec<I>, fixIngress: I -> I, pieces: seq<string>)
    ensures Recompose(codec, fixIngress, Resources(pieces)) == Recompose(codec, fixIngress, pieces)
    decreases |pieces|
  {
    if pieces != [] {
      var init, last := pieces[..|pieces| - 1], pieces[|pieces| - 1];
      RecomposeResources(codec, fixIngress, init);
      var tail := if Contains(last, ApiVersionKey) then [last] else [];
      RecomposeAppend(codec, fixIngress, Resources(init), tail);
      assert Recompose(codec, fixIngress, tail) == EmitPiece(codec, fixIngress, last) by {
        assert tail == [] || tail[..0] == [];
      }
    }
  }

  /** A resource piece whose kind the pass leaves alone. */
  predicate PassesThrough<I>(codec: Codec<I>, piece: string) {
    Contains(piece, ApiVersionKey) && codec.decodeDeployment(piece).kind != DeploymentKind && codec.decodeDeployment(piece).kind != IngressKind
  }

  /** The first piece's output comes first. */
  lemma RecomposeFirst<I>(codec: Codec<I>, fixIngress: I -> I, p: string, rest: seq<string>)
    ensures Recompose(codec, fixIngress, [p] + rest) ==
            EmitPiece(codec, fixIngress, p) + Recompose(codec, fixIngress, rest)
  {
    RecomposeAppend(codec, fixIngress, [p], rest);
    assert Recompose(codec, fixIngress, [p]) == EmitPiece(codec, fixIngress, p) by {
      assert [p][..0] == [];
      assert Recompose(codec, fixIngress, [p]) == "" + EmitPiece(codec, fixIngress, p);
    }
  }


  /** Pieces that all pass through come out as `---` followed by the pieces
      joined with `---`. */
  lemma {:induction false} RecomposePassThrough<I>(codec: Codec<I>, fixIngress: I -> I, pieces: seq<string>)
    requires |pieces| >= 1
    requires forall k :: 0 <= k < |pieces| ==> PassesThrough(codec, pieces[k])
    ensures Recompose(codec, fixIngress, pieces) == Separator + Join(pieces, Separator)
    decreases |pieces|
  {
    var p, rest := pieces[0], pieces[1..];
    assert pieces == [p] + rest;
    RecomposeFirst(codec, fixIngress, p, rest);
    EmitPassThrough(codec, fixIngress, p);
    if rest == [] {
      assert Recompose(codec, fixIngress, rest) == "";
      assert Join(pieces, Separator) == p;
    } else {
      forall k | 0 <= k < |rest|
        ensures PassesThrough(codec, rest[k])
      {
        assert rest[k] == pieces[k + 1];
      }
      RecomposePassThrough(codec, fixIngress, rest);
      JoinCons(p, rest, Separator);
      var tail := Join(rest, Separator);
      assert Recompose(codec, fixIngress, pieces) == (Separator + p) + (Separator + tail);
      assert Join(pieces, Separator) == p + Separator + tail;
      ConcatAssoc(Separator, p, Separator + tail);
      ConcatAssoc(p, Separator, tail);
    }
  }

  /** A manifest that starts with `---` and whose pieces are all resources of
      kinds the pass leaves alone comes out exactly as it went in. */
  lemma NormalizedManifestIdentity<I>(codec: Codec<I>, fixIngress: I -> I, body: string)
    requires forall k :: 0 <= k < |Split(body, Separator)| ==> PassesThrough(codec, Split(body, Separator)[k])
    ensures NormalizedManifest(codec, fixIngress, Separator + body) == Separator + body
  {
    var pieces := Split(body, Separator);
    SplitLeadingSeparator(body, Separator);
    assert NormalizedManifest(codec, fixIngress, Separator + body) == Recompose(codec, fixIngress, [""] + pieces);
    RecomposeFirst(codec, fixIngress, "", pieces);
    EmitDropped(codec, fixIngress, "");
    RecomposePassThrough(codec, fixIngress, pieces);
    JoinSplit(body, Separator);
    assert Recompose(codec, fixIngress, [""] + pieces) == Separator + Join(pieces, Separator);
  }
}
