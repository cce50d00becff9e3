/**
  The pure middle of `modify_ia_metadata`: the desired metadata is laid over the
  item's current metadata, the two are diffed into JSON Patch operations, each
  operation is reshaped into the older draft-02 form the Internet Archive's
  metadata endpoint accepts, and an empty patch becomes the message
  "No changes made to metadata.".  Values are left abstract (`V`): the diff
  only compares them.
*/
module MetadataPatch {
  import opened Wrappers

  const NoChangesMessage := "No changes made to metadata."

  /** `dict(src.items() + metadata.items())`: a later pair wins, so the desired entries override. */
  function Overlay<V>(src: map<string, V>, metadata: map<string, V>): (dest: map<string, V>)
    ensures dest.Keys == src.Keys + metadata.Keys
    ensures forall k :: k in metadata ==> dest[k] == metadata[k]
    ensures forall k :: k in src && k !in metadata ==> dest[k] == src[k]
  {
    src + metadata
  }

  // ---- JSON Pointer paths (RFC 6901, sections 3 and 4) ----------------------

  /** A key as one reference token: `~` becomes `~0`, then `/` becomes `~1`. */
  function Escape(key: string): (token: string)
    ensures '/' !in token
  {
    if key == [] then []
    else (if key[0] == '~' then "~0" else if key[0] == '/' then "~1" else [key[0]]) + Escape(key[1..])
  }

  /** A reference token back to a key: `~1` becomes `/` and `~0` becomes `~`. */
  function Unescape(token: string): string {
    if token == [] then []
    else if |token| >= 2 && token[0] == '~' && token[1] == '0' then "~" + Unescape(token[2..])
    else if |token| >= 2 && token[0] == '~' && token[1] == '1' then "/" + Unescape(token[2..])
    else [token[0]] + Unescape(token[1..])
  }

  lemma {:induction false} UnescapeEscape(key: string)
    ensures Unescape(Escape(key)) == key
  {
    if key != [] {
      var rest := Escape(key[1..]);
      UnescapeEscape(key[1..]);
      if key[0] == '~' {
        assert Escape(key) == "~0" + rest;
        assert ("~0" + rest)[2..] == rest;
      } else if key[0] == '/' {
        assert Escape(key) == "~1" + rest;
        assert ("~1" + rest)[2..] == rest;
      } else {
        assert Escape(key) == [key[0]] + rest;
        assert ([key[0]] + rest)[1..] == rest;
      }
      assert key == [key[0]] + key[1..];
    }
  }

  /** The path of a top-level member: `/` and its escaped key, a single reference token. */
  function Pointer(key: string): (path: string)
    ensures |path| >= 1 && path[0] == '/' && '/' !in path[1..]
  {
    assert ("/" + Escape(key))[1..] == Escape(key);
    "/" + Escape(key)
  }

  /** The key a one-token path names. */
  function PointerKey(path: string): string
    requires |path| >= 1
  {
    Unescape(path[1..])
  }

  /** A key without `~` or `/` is its own token. */
  lemma {:induction false} EscapePlain(key: string)
    requires '~' !in key && '/' !in key
    ensures Escape(key) == key
  {
    if key != [] {
      assert forall c :: c in key[1..] ==> c in key;
      EscapePlain(key[1..]);
      assert key == [key[0]] + key[1..];
    }
  }

  lemma PointerRoundTrip(key: string)
    ensures PointerKey(Pointer(key)) == key
  {
    assert Pointer(key)[1..] == Escape(key);
    UnescapeEscape(key);
  }

  /** Distinct keys get distinct paths. */
  lemma PointerInjective(k1: string, k2: string)
    requires Pointer(k1) == Pointer(k2)
    ensures k1 == k2
  {
    PointerRoundTrip(k1);
    PointerRoundTrip(k2);
  }

  // ---- The diff --------------------------------------------------------------

  datatype Op = Add | Replace

  function OpName(op: Op): string {
    match op
    case Add => "add"
    case Replace => "replace"
  }

  /** One operation as `jsonpatch` produces it: `{'op': ..., 'path': ..., 'value': ...}`. */
  datatype PatchOp<V> = PatchOp(op: Op, path: string, value: V)

  /** `dest` has an entry under `k` that `src` lacks or holds with another value. */
  predicate Changed<V(==)>(src: map<string, V>, dest: map<string, V>, k: string) {
    k in dest && (k !in src || src[k] != dest[k])
  }

  /** The operation that brings `k` to its value in `dest`: `add` for a new key, `replace` for an existing one. */
  function DiffOp<V>(src: map<string, V>, dest: map<string, V>, k: string): (op: PatchOp<V>)
    requires k in dest
    ensures op.op == Add <==> k !in src
    ensures op.path == Pointer(k) && PointerKey(op.path) == k && op.value == dest[k]
  {
    PointerRoundTrip(k);
    PatchOp(if k in src then Replace else Add, Pointer(k), dest[k])
  }

  /**
    `jsonpatch.make_patch(src, dest)` read as a flat diff of the top-level keys,
    visited in `order` (the dictionary's iteration order).
  */
  function FlatDiff<V(==)>(order: seq<string>, src: map<string, V>, dest: map<string, V>): (ops: seq<PatchOp<V>>)
    ensures |ops| <= |order|
  {
    if order == [] then []
    else (if Changed(src, dest, order[0]) then [DiffOp(src, dest, order[0])] else []) + FlatDiff(order[1..], src, dest)
  }

  /** Every operation of the diff is the one for a changed key of `order`. */
  lemma {:induction false} FlatDiffSound<V>(order: seq<string>, src: map<string, V>, dest: map<string, V>)
    ensures forall op :: op in FlatDiff(order, src, dest) ==>
      exists k :: k in order && Changed(src, dest, k) && op == DiffOp(src, dest, k)
  {
    if order != [] {
      FlatDiffSound(order[1..], src, dest);
      forall op | op in FlatDiff(order, src, dest)
        ensures exists k :: k in order && Changed(src, dest, k) && op == DiffOp(src, dest, k)
      {
        if op !in FlatDiff(order[1..], src, dest) {
          assert Changed(src, dest, order[0]) && op == DiffOp(src, dest, order[0]);
        } else {
          var k :| k in order[1..] && Changed(src, dest, k) && op == DiffOp(src, dest, k);
          assert k in order;
        }
      }
    }
  }

  /** Every changed key of `order` has its operation in the diff. */
  lemma {:induction false} FlatDiffComplete<V>(order: seq<string>, src: map<string, V>, dest: map<string, V>)
    ensures forall k :: k in order && Changed(src, dest, k) ==> DiffOp(src, dest, k) in FlatDiff(order, src, dest)
  {
    if order != [] {
      FlatDiffComplete(order[1..], src, dest);
      assert forall k :: k in order && k != order[0] ==> k in order[1..];
    }
  }

  /** The diff is empty exactly when no key of `order` changed. */
  lemma FlatDiffEmptyIff<V>(order: seq<string>, src: map<string, V>, dest: map<string, V>)
    ensures FlatDiff(order, src, dest) == [] <==> forall k :: k in order ==> !Changed(src, dest, k)
  {
    FlatDiffSound(order, src, dest);
    FlatDiffComplete(order, src, dest);
  }

  /** Against an overlay, only the desired entries can change: the current ones are kept. */
  lemma OverlayChanged<V>(src: map<string, V>, metadata: map<string, V>, k: string)
    ensures Changed(src, Overlay(src, metadata), k) <==> k in metadata && (k !in src || src[k] != metadata[k])
  {
  }

  /** An operation of the overlay diff adds exactly the keys the current metadata lacks and replaces the others. */
  lemma OverlayDiffOps<V>(order: seq<string>, src: map<string, V>, metadata: map<string, V>, op: PatchOp<V>)
    requires op in FlatDiff(order, src, Overlay(src, metadata))
    ensures |op.path| >= 1 && PointerKey(op.path) in metadata
    ensures op.value == metadata[PointerKey(op.path)]
    ensures op.op == Add <==> PointerKey(op.path) !in src
    ensures op.op == Replace ==> src[PointerKey(op.path)] != op.value
  {
    FlatDiffSound(order, src, Overlay(src, metadata));
    var k :| k in order && Changed(src, Overlay(src, metadata), k) && op == DiffOp(src, Overlay(src, metadata), k);
    PointerRoundTrip(k);
  }

  /** With every desired key in `order`, the overlay diff is empty exactly when each desired entry is already current. */
  lemma OverlayNoChangesIff<V>(order: seq<string>, src: map<string, V>, metadata: map<string, V>)
    requires forall k :: k in metadata ==> k in order
    ensures FlatDiff(order, src, Overlay(src, metadata)) == [] <==>
      forall k :: k in metadata ==> k in src && src[k] == metadata[k]
  {
    FlatDiffEmptyIff(order, src, Overlay(src, metadata));
    if forall k :: k in metadata ==> k in src && src[k] == metadata[k] {
      assert forall k :: k in order ==> !Changed(src, Overlay(src, metadata), k);
    } else {
      var k :| k in metadata && !(k in src && src[k] == metadata[k]);
      assert Changed(src, Overlay(src, metadata), k);
    }
  }

  // ---- Applying a patch (the receiving side, as a reference) ---------------

  /** One operation on a flat object: `add` sets a member, `replace` requires it to exist; deeper paths are refused. */
  function ApplyOp<V>(doc: map<string, V>, p: PatchOp<V>): Option<map<string, V>> {
    if |p.path| == 0 || p.path[0] != '/' || '/' in p.path[1..] then None
    else
      var k := PointerKey(p.path);
      match p.op
      case Add => Some(doc[k := p.value])
      case Replace => if k in doc then Some(doc[k := p.value]) else None
  }

  /** The operations one after another; the first refused one refuses the patch. */
  function ApplyPatch<V>(doc: map<string, V>, ops: seq<PatchOp<V>>): Option<map<string, V>>
    decreases |ops|
  {
    if ops == [] then Some(doc)
    else
      match ApplyOp(doc, ops[0])
      case None => None
      case Some(next) => ApplyPatch(next, ops[1..])
  }

  /** The entries a diff over `order` sets. */
  function Changes<V(==)>(order: seq<string>, src: map<string, V>, dest: map<string, V>): map<string, V> {
    map k | k in order && Changed(src, dest, k) :: dest[k]
  }

  lemma ApplyDiffOp<V>(doc: map<string, V>, src: map<string, V>, dest: map<string, V>, k: string)
    requires k in dest && src.Keys <= doc.Keys
    ensures ApplyOp(doc, DiffOp(src, dest, k)) == Some(doc[k := dest[k]])
  {
    PointerRoundTrip(k);
  }

  /** Setting the first key of `order` and then the changes of the rest sets the changes of all of `order`. */
  lemma ChangesCons<V>(doc: map<string, V>, order: seq<string>, src: map<string, V>, dest: map<string, V>)
    requires order != [] && Changed(src, dest, order[0])
    ensures doc[order[0] := dest[order[0]]] + Changes(order[1..], src, dest) == doc + Changes(order, src, dest)
  {
    assert forall k :: k in order <==> k == order[0] || k in order[1..];
    assert Changes(order, src, dest) == Changes(order[1..], src, dest)[order[0] := dest[order[0]]];
  }

  lemma ChangesSkip<V>(order: seq<string>, src: map<string, V>, dest: map<string, V>)
    requires order != [] && !Changed(src, dest, order[0])
    ensures Changes(order[1..], src, dest) == Changes(order, src, dest)
  {
    assert forall k :: k in order <==> k == order[0] || k in order[1..];
  }

  /** Applying the diff to any document holding the keys of `src` sets exactly the changed entries. */
  lemma {:induction false} ApplyFlatDiff<V>(doc: map<string, V>, order: seq<string>, src: map<string, V>, dest: map<string, V>)
    requires src.Keys <= doc.Keys
    ensures ApplyPatch(doc, FlatDiff(order, src, dest)) == Some(doc + Changes(order, src, dest))
    decreases |order|
  {
    if order == [] {
      assert Changes(order, src, dest) == map[];
      assert doc + map[] == doc;
    } else if Changed(src, dest, order[0]) {
      ApplyDiffOp(doc, src, dest, order[0]);
      assert FlatDiff(order, src, dest) == [DiffOp(src, dest, order[0])] + FlatDiff(order[1..], src, dest);
      ApplyFlatDiff(doc[order[0] := dest[order[0]]], order[1..], src, dest);
      ChangesCons(doc, order, src, dest);
    } else {
      assert FlatDiff(order, src, dest) == FlatDiff(order[1..], src, dest);
      ApplyFlatDiff(doc, order[1..], src, dest);
      ChangesSkip(order, src, dest);
    }
  }

  /** When `order` visits every key, the diff turns the current metadata into the overlay. */
  lemma ApplyOverlayDiff<V>(order: seq<string>, src: map<string, V>, metadata: map<string, V>)
    requires forall k :: k in metadata ==> k in order
    ensures ApplyPatch(src, FlatDiff(order, src, Overlay(src, metadata))) == Some(Overlay(src, metadata))
  {
    var dest := Overlay(src, metadata);
    ApplyFlatDiff(src, order, src, dest);
    assert src + Changes(order, src, dest) == dest;
  }

  // ---- The draft-02 shape ----------------------------------------------------

  /** A member of a draft-02 operation: the path under the operation's name, or the value. */
  datatype Member<V> = PathMember(path: string) | ValueMember(value: V)

  /** `{op: path, 'value': value}`, the shape of draft-ietf-appsawg-json-patch-02. */
  type Draft02Op<V> = map<string, Member<V>>

  /** `{p['op']: p['path'], 'value': p['value']}`. */
  function Reshape<V>(p: PatchOp<V>): (d: Draft02Op<V>)
    ensures d.Keys == {OpName(p.op), "value"}
  {
    map[OpName(p.op) := PathMember(p.path), "value" := ValueMember(p.value)]
  }

  /** Reading a draft-02 operation back: exactly an operation name and a value. */
  function Unshape<V>(d: Draft02Op<V>): Option<PatchOp<V>> {
    if "value" !in d || !d["value"].ValueMember? then None
    else if d.Keys == {"add", "value"} && d["add"].PathMember? then Some(PatchOp(Add, d["add"].path, d["value"].value))
    else if d.Keys == {"replace", "value"} && d["replace"].PathMember? then Some(PatchOp(Replace, d["replace"].path, d["value"].value))
    else None
  }

  lemma UnshapeReshape<V>(p: PatchOp<V>)
    ensures Unshape(Reshape(p)) == Some(p)
  {
    assert "add" != "value" && "replace" != "value" && "add" != "replace";
  }

  /** The list comprehension over the whole patch. */
  function ReshapeAll<V>(ops: seq<PatchOp<V>>): (patch: seq<Draft02Op<V>>)
    ensures |patch| == |ops|
  {
    if ops == [] then [] else [Reshape(ops[0])] + ReshapeAll(ops[1..])
  }

  /** A draft-02 patch applied by its receiver. */
  function ApplyDraft02<V>(doc: map<string, V>, patch: seq<Draft02Op<V>>): Option<map<string, V>>
    decreases |patch|
  {
    if patch == [] then Some(doc)
    else
      match Unshape(patch[0])
      case None => None
      case Some(p) =>
        match ApplyOp(doc, p)
        case None => None
        case Some(next) => ApplyDraft02(next, patch[1..])
  }

  /** Reshaping changes the form of the operations and not their effect. */
  lemma {:induction false} ApplyReshaped<V>(doc: map<string, V>, ops: seq<PatchOp<V>>)
    ensures ApplyDraft02(doc, ReshapeAll(ops)) == ApplyPatch(doc, ops)
    decreases |ops|
  {
    if ops != [] {
      UnshapeReshape(ops[0]);
      assert ReshapeAll(ops)[1..] == ReshapeAll(ops[1..]);
      match ApplyOp(doc, ops[0])
      case None =>
      case Some(next) => ApplyReshaped(next, ops[1..]);
    }
  }

  // ---- The reply ---------------------------------------------------------------

  /** What the function hands back or sends: the message, or the patch request for `target`. */
  datatype Reply<V> = Message(text: string) | PatchRequest(patch: seq<Draft02Op<V>>, target: string)

  /** The diff, reshape and empty check between fetching `src` and sending the request. */
  function Reconcile<V(==)>(order: seq<string>, src: map<string, V>, metadata: map<string, V>, target: string): (r: Reply<V>)
    ensures r.Message? ==> r.text == NoChangesMessage
    ensures r.PatchRequest? ==>
      r.target == target && 0 < |r.patch| == |FlatDiff(order, src, Overlay(src, metadata))|
  {
    var patch := ReshapeAll(FlatDiff(order, src, Overlay(src, metadata)));
    if patch == [] then Message(NoChangesMessage) else PatchRequest(patch, target)
  }

  /** The message comes back exactly when every desired entry is already current; otherwise a request for `target`. */
  lemma ReconcileNoChangesIff<V>(order: seq<string>, src: map<string, V>, metadata: map<string, V>, target: string)
    requires forall k :: k in metadata ==> k in order
    ensures Reconcile(order, src, metadata, target) == Message(NoChangesMessage) <==>
      forall k :: k in metadata ==> k in src && src[k] == metadata[k]
    ensures Reconcile(order, src, metadata, target).PatchRequest? ==>
      Reconcile(order, src, metadata, target).target == target
  {
    OverlayNoChangesIff(order, src, metadata);
  }

  /** Every operation sent has the draft-02 shape `{op: path, 'value': value}` for a desired entry. */
  lemma ReconcileShape<V>(order: seq<string>, src: map<string, V>, metadata: map<string, V>, target: string, i: nat)
    requires Reconcile(order, src, metadata, target).PatchRequest?
    requires i < |Reconcile(order, src, metadata, target).patch|
    ensures exists op: PatchOp<V> ::
      && op in FlatDiff(order, src, Overlay(src, metadata))
      && Reconcile(order, src, metadata, target).patch[i] == map[OpName(op.op) := PathMember(op.path), "value" := ValueMember(op.value)]
  {
    var ops := FlatDiff(order, src, Overlay(src, metadata));
    ReshapeAllIndex(ops, i);
    assert ops[i] in ops;
  }

  lemma {:induction false} ReshapeAllIndex<V>(ops: seq<PatchOp<V>>, i: nat)
    requires i < |ops|
    ensures ReshapeAll(ops)[i] == Reshape(ops[i])
  {
    if i > 0 {
      ReshapeAllIndex(ops[1..], i - 1);
    }
  }

  /** A request, applied by the receiver, turns the current metadata into the overlay. */
  lemma ReconcileApplies<V>(order: seq<string>, src: map<string, V>, metadata: map<string, V>, target: string)
    requires forall k :: k in metadata ==> k in order
    requires Reconcile(order, src, metadata, target).PatchRequest?
    ensures ApplyDraft02(src, Reconcile(order, src, metadata, target).patch) == Some(Overlay(src, metadata))
  {
    ApplyReshaped(src, FlatDiff(order, src, Overlay(src, metadata)));
    ApplyOverlayDiff(order, src, metadata);
  }

  /** Overlaying `{"title": "X"}` on `{"title": "X"}` changes nothing. */
  lemma SameTitleNoChanges()
    ensures Reconcile(["title"], map["title" := "X"], map["title" := "X"], "metadata") == Message(NoChangesMessage)
  {
    ReconcileNoChangesIff(["title"], map["title" := "X"], map["title" := "X"], "metadata");
  }

  /** The diff of a single visited key is its operation when that key changed. */
  lemma FlatDiffOne<V>(k: string, src: map<string, V>, dest: map<string, V>)
    requires Changed(src, dest, k)
    ensures FlatDiff([k], src, dest) == [DiffOp(src, dest, k)]
  {
    assert [k][1..] == [];
  }

  /** Changing the value of one plain key sends a single replace of its path. */
  lemma ReconcileReplaceOne<V>(k: string, current: V, desired: V, target: string)
    requires current != desired && '~' !in k && '/' !in k
    ensures Reconcile([k], map[k := current], map[k := desired], target)
      == PatchRequest([map["replace" := PathMember("/" + k), "value" := ValueMember(desired)]], target)
  {
    var src, metadata := map[k := current], map[k := desired];
    assert Overlay(src, metadata) == metadata;
    EscapePlain(k);
    var op := PatchOp(Replace, "/" + k, desired);
    FlatDiffOne(k, src, metadata);
    assert [op][1..] == [];
  }

  /** Overlaying `{"title": "Y"}` on `{"title": "X"}` sends one replace of `/title` with "Y". */
  lemma NewTitleReplaces()
    ensures Reconcile(["title"], map["title" := "X"], map["title" := "Y"], "metadata")
      == PatchRequest([map["replace" := PathMember("/title"), "value" := ValueMember("Y")]], "metadata")
  {
    assert "X"[0] != "Y"[0];
    assert forall i :: 0 <= i < |"title"| ==> "title"[i] != '~' && "title"[i] != '/';
    ReconcileReplaceOne("title", "X", "Y", "metadata");
    assert "/" + "title" == "/title";
  }
}
