/** The -signer, -inkey and -keyopt options of cms under a signing operation: which key signs for
    which certificate, and with which parameters. */
module SignerOptions {
  import opened CText
  import opened SeqFacts

  datatype Opt = Signer(file: string) | InKey(file: string) | KeyOpt(text: string)

  /** Parameters for the key at a position of the list. */
  datatype Param = Param(idx: nat, texts: seq<string>)

  datatype Result = Result(signers: seq<string>, keys: seq<string>, params: seq<Param>)

  // ---- what the options mean: the command line falls into segments, one per signer ----

  predicate HasSigner(seg: seq<Opt>) { exists i :: 0 <= i < |seg| && seg[i].Signer? }
  predicate HasKey(seg: seq<Opt>) { exists i :: 0 <= i < |seg| && seg[i].InKey? }

  /** An option that the segment has already opens the next one. */
  predicate Clash(seg: seq<Opt>, o: Opt) { (o.Signer? && HasSigner(seg)) || (o.InKey? && HasKey(seg)) }

  function Segments(opts: seq<Opt>): (segs: seq<seq<Opt>>)
    ensures segs == [] <==> opts == []
  {
    if opts == [] then []
    else
      var segs, o := Segments(opts[..|opts| - 1]), opts[|opts| - 1];
      if segs == [] || Clash(segs[|segs| - 1], o) then segs + [[o]]
      else segs[|segs| - 1 := segs[|segs| - 1] + [o]]
  }

  function SignerArgs(opts: seq<Opt>): seq<string> {
    if opts == [] then []
    else
      var front, o := SignerArgs(opts[..|opts| - 1]), opts[|opts| - 1];
      if o.Signer? then front + [o.file] else front
  }

  function KeyArgs(opts: seq<Opt>): seq<string> {
    if opts == [] then []
    else
      var front, o := KeyArgs(opts[..|opts| - 1]), opts[|opts| - 1];
      if o.InKey? then front + [o.file] else front
  }

  function KeyOptArgs(opts: seq<Opt>): seq<string> {
    if opts == [] then []
    else
      var front, o := KeyOptArgs(opts[..|opts| - 1]), opts[|opts| - 1];
      if o.KeyOpt? then front + [o.text] else front
  }

  /** The one signer or key of a segment, if any. */
  function TheSigner(seg: seq<Opt>): Option<string> {
    var a := SignerArgs(seg); if a == [] then None else Some(a[|a| - 1])
  }
  function TheKey(seg: seq<Opt>): Option<string> {
    var a := KeyArgs(seg); if a == [] then None else Some(a[|a| - 1])
  }

  /** Every segment names a signer, and no parameter comes before the first signer or key. */
  predicate Acceptable(opts: seq<Opt>) {
    && opts != [] && !opts[0].KeyOpt?
    && forall i :: 0 <= i < |Segments(opts)| ==> TheSigner(Segments(opts)[i]).Some?
  }

  function GetOr(o: Option<string>, d: string): string { if o.Some? then o.value else d }

  function Signers(segs: seq<seq<Opt>>): seq<string>
    requires forall i :: 0 <= i < |segs| ==> TheSigner(segs[i]).Some?
  {
    if segs == [] then [] else Signers(segs[..|segs| - 1]) + [TheSigner(segs[|segs| - 1]).value]
  }

  /** A signer without a key of its own is looked for its key in the same file. */
  function Keys(segs: seq<seq<Opt>>): seq<string>
    requires forall i :: 0 <= i < |segs| ==> TheSigner(segs[i]).Some?
  {
    if segs == [] then []
    else
      var seg := segs[|segs| - 1];
      Keys(segs[..|segs| - 1]) + [GetOr(TheKey(seg), TheSigner(seg).value)]
  }

  /** The parameters of each segment that has any, under its position. */
  function Params(segs: seq<seq<Opt>>): seq<Param> {
    if segs == [] then []
    else
      var front, texts := Params(segs[..|segs| - 1]), KeyOptArgs(segs[|segs| - 1]);
      if texts == [] then front else front + [Param(|segs| - 1, texts)]
  }

  function Meaning(opts: seq<Opt>): Result
    requires Acceptable(opts)
  {
    Result(Signers(Segments(opts)), Keys(Segments(opts)), Params(Segments(opts)))
  }

  // ---- properties of the meaning ----

  function Concat(segs: seq<seq<Opt>>): seq<Opt> {
    if segs == [] then [] else Concat(segs[..|segs| - 1]) + segs[|segs| - 1]
  }

  lemma {:induction false} ArgsSnoc(seg: seq<Opt>, o: Opt)
    ensures SignerArgs(seg + [o]) == if o.Signer? then SignerArgs(seg) + [o.file] else SignerArgs(seg)
    ensures KeyArgs(seg + [o]) == if o.InKey? then KeyArgs(seg) + [o.file] else KeyArgs(seg)
    ensures KeyOptArgs(seg + [o]) == if o.KeyOpt? then KeyOptArgs(seg) + [o.text] else KeyOptArgs(seg)
  {
    assert (seg + [o])[..|seg|] == seg;
  }

  lemma {:induction false} HasMeansArgs(seg: seq<Opt>)
    ensures HasSigner(seg) <==> SignerArgs(seg) != []
    ensures HasKey(seg) <==> KeyArgs(seg) != []
  {
    if seg != [] {
      var front, o := seg[..|seg| - 1], seg[|seg| - 1];
      HasMeansArgs(front);
      assert seg == front + [o];
      assert forall i :: 0 <= i < |front| ==> seg[i] == front[i];
      assert seg[|seg| - 1] == o;
    }
  }

  /** One more option extends the last segment or begins a new one. */
  lemma {:induction false} SegmentsStep(opts: seq<Opt>)
    requires opts != []
    ensures var segs, segs', o := Segments(opts[..|opts| - 1]), Segments(opts), opts[|opts| - 1];
      if segs == [] || Clash(segs[|segs| - 1], o) then segs' == segs + [[o]]
      else segs' == segs[..|segs| - 1] + [segs[|segs| - 1] + [o]]
  {
  }

  lemma {:induction false} ConcatSnoc(segs: seq<seq<Opt>>, seg: seq<Opt>)
    ensures Concat(segs + [seg]) == Concat(segs) + seg
  {
    Snoc(segs, seg);
  }

  /** The segments are the command line cut up. */
  lemma {:induction false} SegmentsConcat(opts: seq<Opt>)
    ensures Concat(Segments(opts)) == opts
  {
    if opts != [] {
      var o := opts[|opts| - 1];
      var segs := Segments(opts[..|opts| - 1]);
      SegmentsConcat(opts[..|opts| - 1]);
      SegmentsStep(opts);
      FrontLast(opts);
      if segs == [] || Clash(segs[|segs| - 1], o) {
        ConcatSnoc(segs, [o]);
      } else {
        ConcatExtended(segs, o);
      }
    }
  }

  lemma {:induction false} ConcatExtended(segs: seq<seq<Opt>>, o: Opt)
    requires segs != []
    ensures Concat(segs[..|segs| - 1] + [segs[|segs| - 1] + [o]]) == Concat(segs) + [o]
  {
    var closed, last := segs[..|segs| - 1], segs[|segs| - 1];
    ConcatSnoc(closed, last + [o]);
    Assoc(Concat(closed), last, [o]);
  }

  predicate OneEach(seg: seq<Opt>) { seg != [] && |SignerArgs(seg)| <= 1 && |KeyArgs(seg)| <= 1 }

  predicate Greedy(segs: seq<seq<Opt>>) {
    && (forall i :: 0 <= i < |segs| ==> OneEach(segs[i]))
    && (forall i :: 1 <= i < |segs| ==> segs[i] != [] && Clash(segs[i - 1], segs[i][0]))
  }

  /** Each segment holds at most one signer and one key, and each but the first begins with an
      option that the one before it already has. */
  lemma {:induction false} SegmentsGreedy(opts: seq<Opt>)
    ensures Greedy(Segments(opts))
  {
    if opts != [] {
      var o := opts[|opts| - 1];
      var segs := Segments(opts[..|opts| - 1]);
      SegmentsGreedy(opts[..|opts| - 1]);
      SegmentsStep(opts);
      GreedyStep(segs, Segments(opts), o);
    }
  }

  lemma {:induction false} GreedyStep(segs: seq<seq<Opt>>, segs': seq<seq<Opt>>, o: Opt)
    requires Greedy(segs)
    requires if segs == [] || Clash(segs[|segs| - 1], o) then segs' == segs + [[o]]
             else segs' == segs[..|segs| - 1] + [segs[|segs| - 1] + [o]]
    ensures Greedy(segs')
  {
    if segs == [] || Clash(segs[|segs| - 1], o) {
      GreedySnoc(segs, o);
    } else {
      GreedyExtend(segs, o);
    }
  }

  lemma {:induction false} GreedySnoc(segs: seq<seq<Opt>>, o: Opt)
    requires Greedy(segs) && (segs == [] || Clash(segs[|segs| - 1], o))
    ensures Greedy(segs + [[o]])
  {
    SingletonOneEach(o);
  }

  lemma {:induction false} GreedyExtend(segs: seq<seq<Opt>>, o: Opt)
    requires Greedy(segs) && segs != [] && !Clash(segs[|segs| - 1], o)
    ensures Greedy(segs[..|segs| - 1] + [segs[|segs| - 1] + [o]])
  {
    var n := |segs| - 1;
    ExtendOneEach(segs[n], o);
    var segs' := segs[..n] + [segs[n] + [o]];
    assert forall i :: 0 <= i < n ==> segs'[i] == segs[i];
    assert segs'[n][0] == segs[n][0];
  }

  lemma {:induction false} SingletonOneEach(o: Opt)
    ensures OneEach([o])
  {
    ArgsSnoc([], o);
    assert [] + [o] == [o];
  }

  lemma {:induction false} ExtendOneEach(seg: seq<Opt>, o: Opt)
    requires OneEach(seg) && !Clash(seg, o)
    ensures OneEach(seg + [o])
  {
    ArgsSnoc(seg, o);
    HasMeansArgs(seg);
  }

  lemma {:induction false} SignerArgsAppend(a: seq<Opt>, b: seq<Opt>)
    ensures SignerArgs(a + b) == SignerArgs(a) + SignerArgs(b)
    ensures KeyArgs(a + b) == KeyArgs(a) + KeyArgs(b)
    ensures KeyOptArgs(a + b) == KeyOptArgs(a) + KeyOptArgs(b)
  {
    if b == [] {
      Whole(a);
      Whole(SignerArgs(a));
      Whole(KeyArgs(a));
      Whole(KeyOptArgs(a));
    } else {
      var b', o := b[..|b| - 1], b[|b| - 1];
      SignerArgsAppend(a, b');
      FrontLast(b);
      Assoc(a, b', [o]);
      ArgsSnoc(a + b', o);
      ArgsSnoc(b', o);
      match o
      case Signer(x) => Assoc(SignerArgs(a), SignerArgs(b'), [x]);
      case InKey(x) => Assoc(KeyArgs(a), KeyArgs(b'), [x]);
      case KeyOpt(x) => Assoc(KeyOptArgs(a), KeyOptArgs(b'), [x]);
    }
  }

  function ExplicitKeys(segs: seq<seq<Opt>>): seq<string> {
    if segs == [] then []
    else
      var front, k := ExplicitKeys(segs[..|segs| - 1]), TheKey(segs[|segs| - 1]);
      if k.Some? then front + [k.value] else front
  }

  function ParamTexts(ps: seq<Param>): seq<string> {
    if ps == [] then [] else ParamTexts(ps[..|ps| - 1]) + ps[|ps| - 1].texts
  }

  lemma {:induction false} ParamTextsSnoc(ps: seq<Param>, p: Param)
    ensures ParamTexts(ps + [p]) == ParamTexts(ps) + p.texts
  {
    assert (ps + [p])[..|ps|] == ps;
  }

  ghost predicate Paired(segs: seq<seq<Opt>>) {
    forall i :: 0 <= i < |segs| ==> TheSigner(segs[i]).Some? && OneEach(segs[i])
  }

  lemma {:induction false} OneSegment(seg: seq<Opt>)
    requires OneEach(seg)
    ensures TheSigner(seg).Some? ==> SignerArgs(seg) == [TheSigner(seg).value]
    ensures KeyArgs(seg) == if TheKey(seg).Some? then [TheKey(seg).value] else []
  {
  }

  /** Segment by segment no file is lost. */
  lemma {:induction false} NoFileLost(segs: seq<seq<Opt>>)
    requires Paired(segs)
    ensures Signers(segs) == SignerArgs(Concat(segs))
    ensures ExplicitKeys(segs) == KeyArgs(Concat(segs))
  {
    if segs != [] {
      NoFileLost(segs[..|segs| - 1]);
      FileStep(segs);
    }
  }

  lemma {:induction false} FileStep(segs: seq<seq<Opt>>)
    requires Paired(segs) && segs != []
    requires var front := segs[..|segs| - 1];
      Signers(front) == SignerArgs(Concat(front)) && ExplicitKeys(front) == KeyArgs(Concat(front))
    ensures Signers(segs) == SignerArgs(Concat(segs)) && ExplicitKeys(segs) == KeyArgs(Concat(segs))
  {
    var front, seg := segs[..|segs| - 1], segs[|segs| - 1];
    SignerArgsAppend(Concat(front), seg);
    OneSegment(seg);
    Whole(KeyArgs(Concat(front)));
  }

  lemma {:induction false} NoParamLost(segs: seq<seq<Opt>>)
    ensures ParamTexts(Params(segs)) == KeyOptArgs(Concat(segs))
  {
    if segs != [] {
      var front, seg := segs[..|segs| - 1], segs[|segs| - 1];
      NoParamLost(front);
      SignerArgsAppend(Concat(front), seg);
      ParamTextsSnoc(Params(front), Param(|segs| - 1, KeyOptArgs(seg)));
    }
  }

  lemma {:induction false} PairAt(segs: seq<seq<Opt>>, i: nat)
    requires Paired(segs)
    ensures |Signers(segs)| == |Keys(segs)| == |segs|
    ensures i < |segs| ==>
      Signers(segs)[i] == TheSigner(segs[i]).value && Keys(segs)[i] == GetOr(TheKey(segs[i]), Signers(segs)[i])
  {
    if segs != [] {
      var n := |segs| - 1;
      PairAt(segs[..n], i);
      Snoc(Signers(segs[..n]), TheSigner(segs[n]).value);
      Snoc(Keys(segs[..n]), GetOr(TheKey(segs[n]), TheSigner(segs[n]).value));
    }
  }

  /** Positions strictly increase and are positions of signers; each parameter set is that of the
      segment in whose place it stands. */
  lemma {:induction false} ParamsPlaced(segs: seq<seq<Opt>>)
    ensures forall k :: 0 <= k < |Params(segs)| ==>
      Params(segs)[k].idx < |segs| && Params(segs)[k].texts == KeyOptArgs(segs[Params(segs)[k].idx]) && Params(segs)[k].texts != []
    ensures forall k, l :: 0 <= k < l < |Params(segs)| ==> Params(segs)[k].idx < Params(segs)[l].idx
  {
    if segs != [] {
      ParamsPlaced(segs[..|segs| - 1]);
    }
  }

  /** For every accepted command line the lists have equal length, every -signer and every -inkey
      appears once and in order, a signer without a key stands for its own key, and every -keyopt is
      kept in order under the position of the signer it was given for. */
  lemma {:induction false} AcceptedPairing(opts: seq<Opt>)
    requires Acceptable(opts)
    ensures var r := Meaning(opts);
      && |r.signers| == |r.keys| == |Segments(opts)|
      && r.signers == SignerArgs(opts)
      && ExplicitKeys(Segments(opts)) == KeyArgs(opts)
      && (forall i :: 0 <= i < |r.keys| ==> r.keys[i] == GetOr(TheKey(Segments(opts)[i]), r.signers[i]))
      && ParamTexts(r.params) == KeyOptArgs(opts)
      && (forall k, l :: 0 <= k < l < |r.params| ==> r.params[k].idx < r.params[l].idx)
      && (forall k :: 0 <= k < |r.params| ==> r.params[k].idx < |r.signers|)
  {
    var segs := Segments(opts);
    SegmentsConcat(opts);
    SegmentsGreedy(opts);
    NoFileLost(segs);
    NoParamLost(segs);
    PairAt(segs, 0);
    forall i | 0 <= i < |segs| ensures Keys(segs)[i] == GetOr(TheKey(segs[i]), Signers(segs)[i]) { PairAt(segs, i); }
    ParamsPlaced(segs);
  }

  /** The arguments of one option, in the order of the command line. */
  ghost predicate Picked(opts: seq<Opt>, args: seq<string>, m: seq<nat>, mk: string -> Opt) {
    && Increasing(m, |opts|) && |m| == |args|
    && (forall k :: 0 <= k < |m| ==> opts[m[k]] == mk(args[k]))
    && (forall i, x :: 0 <= i < |opts| && opts[i] == mk(x) ==> i in m)
  }

  lemma {:induction false} PickedSnoc(opts: seq<Opt>, args: seq<string>, m: seq<nat>, mk: string -> Opt, x: string)
    requires Picked(opts, args, m, mk)
    ensures Picked(opts + [mk(x)], args + [x], m + [|opts|], mk)
  {
    IncreasingSnoc(m, |opts|);
    var m' := m + [|opts|];
    assert forall i :: i in m ==> i in m';
    assert m'[|m|] == |opts| && |opts| in m';
  }

  lemma {:induction false} PassedSnoc(opts: seq<Opt>, args: seq<string>, m: seq<nat>, mk: string -> Opt, o: Opt)
    requires Picked(opts, args, m, mk) && forall x :: o != mk(x)
    ensures Picked(opts + [o], args, m, mk)
  {
    IncreasingSnoc(m, |opts|);
  }

  function AsSigner(): string -> Opt { (x: string) => Signer(x) }
  function AsKey(): string -> Opt { (x: string) => InKey(x) }
  function AsParam(): string -> Opt { (x: string) => KeyOpt(x) }

  /** The three lists of arguments hold all of them, in order. */
  lemma {:induction false} ArgsInOrder(opts: seq<Opt>) returns (s: seq<nat>, k: seq<nat>, p: seq<nat>)
    ensures Picked(opts, SignerArgs(opts), s, AsSigner())
    ensures Picked(opts, KeyArgs(opts), k, AsKey())
    ensures Picked(opts, KeyOptArgs(opts), p, AsParam())
  {
    s, k, p := [], [], [];
    if opts != [] {
      var n := |opts| - 1;
      var front, o := opts[..n], opts[n];
      s, k, p := ArgsInOrder(front);
      FrontLast(opts);
      match o {
        case Signer(x) =>
          PickedSnoc(front, SignerArgs(front), s, AsSigner(), x);
          PassedSnoc(front, KeyArgs(front), k, AsKey(), o);
          PassedSnoc(front, KeyOptArgs(front), p, AsParam(), o);
          s := s + [n];
        case InKey(x) =>
          PassedSnoc(front, SignerArgs(front), s, AsSigner(), o);
          PickedSnoc(front, KeyArgs(front), k, AsKey(), x);
          PassedSnoc(front, KeyOptArgs(front), p, AsParam(), o);
          k := k + [n];
        case KeyOpt(x) =>
          PassedSnoc(front, SignerArgs(front), s, AsSigner(), o);
          PassedSnoc(front, KeyArgs(front), k, AsKey(), o);
          PickedSnoc(front, KeyOptArgs(front), p, AsParam(), x);
          p := p + [n];
      }
    }
  }

  lemma {:induction false} PickedMember(opts: seq<Opt>, args: seq<string>, m: seq<nat>, mk: string -> Opt, x: string)
    requires Picked(opts, args, m, mk) && (forall x, y :: mk(x) == mk(y) ==> x == y)
    ensures mk(x) in opts <==> x in args
  {
    if x in args {
      var k: nat :| k < |args| && args[k] == x;
      assert opts[m[k]] == mk(x);
    }
    if mk(x) in opts {
      var i: nat :| i < |opts| && opts[i] == mk(x);
      var k: nat :| k < |m| && m[k] == i;
      assert mk(args[k]) == mk(x);
    }
  }

  lemma {:induction false} SegmentFiles(seg: seq<Opt>, x: string)
    requires OneEach(seg)
    ensures Signer(x) in seg <==> TheSigner(seg) == Some(x)
    ensures InKey(x) in seg <==> TheKey(seg) == Some(x)
  {
    var s, k, _ := ArgsInOrder(seg);
    PickedMember(seg, SignerArgs(seg), s, AsSigner(), x);
    PickedMember(seg, KeyArgs(seg), k, AsKey(), x);
  }

  /** Which file signs with which key: the i-th signer is the one that the i-th segment names, with
      the key that the segment names or, without one, its own file. */
  lemma {:induction false} SignerHasKey(opts: seq<Opt>, i: nat)
    requires Acceptable(opts) && i < |Segments(opts)|
    ensures var seg, r := Segments(opts)[i], Meaning(opts);
      && |r.signers| == |r.keys| == |Segments(opts)|
      && (forall x :: Signer(x) in seg <==> x == r.signers[i])
      && (forall x :: InKey(x) in seg ==> x == r.keys[i])
      && ((forall x :: InKey(x) !in seg) ==> r.keys[i] == r.signers[i])
  {
    var segs := Segments(opts);
    SegmentsGreedy(opts);
    PairAt(segs, i);
    forall x ensures (Signer(x) in segs[i] <==> TheSigner(segs[i]) == Some(x)) && (InKey(x) in segs[i] <==> TheKey(segs[i]) == Some(x)) {
      SegmentFiles(segs[i], x);
    }
    if TheKey(segs[i]).Some? { assert InKey(TheKey(segs[i]).value) in segs[i]; }
  }

  /** Where the command line is cut: before a -signer when the segment has one, or an -inkey when it
      has one, and nowhere else. */
  lemma {:induction false} CutAt(opts: seq<Opt>, i: nat)
    requires i + 1 < |Segments(opts)|
    ensures var seg, next := Segments(opts)[i], Segments(opts)[i + 1];
      next != [] && ((next[0].Signer? && exists x :: Signer(x) in seg) || (next[0].InKey? && exists x :: InKey(x) in seg))
  {
    SegmentsGreedy(opts);
    var seg, next := Segments(opts)[i], Segments(opts)[i + 1];
    assert Clash(seg, next[0]);
    if next[0].Signer? {
      var j :| 0 <= j < |seg| && seg[j].Signer?;
      assert Signer(seg[j].file) in seg;
    } else {
      var j :| 0 <= j < |seg| && seg[j].InKey?;
      assert InKey(seg[j].file) in seg;
    }
  }

  // ---- the option loop ----

  /** The variables of the loop: the pending signer and key, the lists and the parameters. */
  datatype Fields = Fields(signer: Option<string>, key: Option<string>, signers: seq<string>, keys: seq<string>, params: seq<Param>)

  const NO_FIELDS := Fields(None, None, [], [], [])

  function Pushed(f: Fields): Fields
    requires f.signer.Some?
  {
    f.(signers := f.signers + [f.signer.value], keys := f.keys + [GetOr(f.key, f.signer.value)])
  }

  function AfterSigner(f: Fields, file: string): Fields {
    (if f.signer.Some? then Pushed(f).(key := None) else f).(signer := Some(file))
  }

  function AfterInKey(f: Fields, file: string): Option<Fields> {
    if f.key.None? then Some(f.(key := Some(file)))
    else if f.signer.None? then None
    else Some(Pushed(f).(signer := None, key := Some(file)))
  }

  function AfterKeyOpt(f: Fields, text: string): Option<Fields> {
    var keyidx := |f.keys| + if f.key.Some? || f.signer.Some? then 0 else -1;
    if keyidx < 0 then None else Some(f.(params := WithParam(f.params, keyidx, text)))
  }

  function WithParam(ps: seq<Param>, keyidx: nat, text: string): seq<Param> {
    if ps == [] || ps[|ps| - 1].idx != keyidx then ps + [Param(keyidx, [text])]
    else ps[|ps| - 1 := Param(keyidx, ps[|ps| - 1].texts + [text])]
  }

  /** All but the last segment are in the lists, the last one is pending. */
  ghost predicate HoldsOpen(closed: seq<seq<Opt>>, last: seq<Opt>, f: Fields) {
    && (forall i :: 0 <= i < |closed| ==> TheSigner(closed[i]).Some?)
    && f.signers == Signers(closed) && f.keys == Keys(closed) && f.params == Params(closed + [last])
    && f.signer == TheSigner(last) && f.key == TheKey(last) && (f.signer.Some? || f.key.Some?)
  }

  /** The variables after a command line that has not failed. */
  ghost predicate Holds(opts: seq<Opt>, f: Fields) {
    var segs := Segments(opts);
    if segs == [] then f == NO_FIELDS else HoldsOpen(segs[..|segs| - 1], segs[|segs| - 1], f)
  }

  function SignerOf(o: Opt): Option<string> { if o.Signer? then Some(o.file) else None }

  function KeyOf(o: Opt): Option<string> { if o.InKey? then Some(o.file) else None }

  lemma {:induction false} SingleArgs(o: Opt)
    ensures TheSigner([o]) == SignerOf(o) && TheKey([o]) == KeyOf(o)
    ensures KeyOptArgs([o]) == (if o.KeyOpt? then [o.text] else [])
  {
    ArgsSnoc([], o);
    assert [] + [o] == [o];
  }

  lemma {:induction false} LastArgs(seg: seq<Opt>, o: Opt)
    ensures TheSigner(seg + [o]) == if o.Signer? then Some(o.file) else TheSigner(seg)
    ensures TheKey(seg + [o]) == if o.InKey? then Some(o.file) else TheKey(seg)
  {
    ArgsSnoc(seg, o);
  }

  lemma {:induction false} ParamsSnoc(closed: seq<seq<Opt>>, seg: seq<Opt>)
    ensures Params(closed + [seg])
         == if KeyOptArgs(seg) == [] then Params(closed) else Params(closed) + [Param(|closed|, KeyOptArgs(seg))]
  {
    Snoc(closed, seg);
  }

  lemma {:induction false} PairSnoc(closed: seq<seq<Opt>>, last: seq<Opt>)
    requires (forall i :: 0 <= i < |closed| ==> TheSigner(closed[i]).Some?) && TheSigner(last).Some?
    ensures forall i :: 0 <= i < |closed + [last]| ==> TheSigner((closed + [last])[i]).Some?
    ensures Signers(closed + [last]) == Signers(closed) + [TheSigner(last).value]
    ensures Keys(closed + [last]) == Keys(closed) + [GetOr(TheKey(last), TheSigner(last).value)]
  {
    Snoc(closed, last);
  }

  lemma {:induction false} LengthOfKeys(segs: seq<seq<Opt>>)
    requires forall i :: 0 <= i < |segs| ==> TheSigner(segs[i]).Some?
    ensures |Keys(segs)| == |segs|
  {
    if segs != [] { LengthOfKeys(segs[..|segs| - 1]); }
  }

  /** The first option opens a segment. */
  lemma {:induction false} OpenFirst(o: Opt)
    requires !o.KeyOpt?
    ensures HoldsOpen([], [o], Fields(SignerOf(o), KeyOf(o), [], [], []))
  {
    SingleArgs(o);
    ParamsSnoc([], [o]);
  }

  /** An option that the pending segment lacks joins it. */
  lemma {:induction false} Joins(closed: seq<seq<Opt>>, last: seq<Opt>, o: Opt, f: Fields)
    requires HoldsOpen(closed, last, f) && !o.KeyOpt?
    ensures HoldsOpen(closed, last + [o],
                      f.(signer := if o.Signer? then SignerOf(o) else f.signer, key := if o.InKey? then KeyOf(o) else f.key))
  {
    LastArgs(last, o);
    ArgsSnoc(last, o);
    ParamsSnoc(closed, last);
    ParamsSnoc(closed, last + [o]);
  }

  /** One that it has closes it and opens the next. */
  lemma {:induction false} Closes(closed: seq<seq<Opt>>, last: seq<Opt>, o: Opt, f: Fields)
    requires HoldsOpen(closed, last, f) && f.signer.Some? && !o.KeyOpt?
    ensures HoldsOpen(closed + [last], [o], Pushed(f).(signer := SignerOf(o), key := KeyOf(o)))
  {
    SingleArgs(o);
    PairSnoc(closed, last);
    ParamsSnoc(closed + [last], [o]);
  }

  /** A parameter joins those of the pending segment. */
  lemma {:induction false} ParamsGrow(closed: seq<seq<Opt>>, last: seq<Opt>, text: string)
    ensures Params(closed + [last + [KeyOpt(text)]]) == WithParam(Params(closed + [last]), |closed|, text)
  {
    ParamsSnoc(closed, last);
    ParamsSnoc(closed, last + [KeyOpt(text)]);
    ArgsSnoc(last, KeyOpt(text));
    ParamsPlaced(closed);
    if KeyOptArgs(last) == [] { assert KeyOptArgs(last) + [text] == [text]; }
  }

  lemma {:induction false} JoinsParam(closed: seq<seq<Opt>>, last: seq<Opt>, text: string, f: Fields)
    requires HoldsOpen(closed, last, f)
    ensures HoldsOpen(closed, last + [KeyOpt(text)], f.(params := WithParam(f.params, |f.keys|, text)))
  {
    LastArgs(last, KeyOpt(text));
    ParamsGrow(closed, last, text);
    LengthOfKeys(closed);
  }

  lemma {:induction false} ClashMeans(seg: seq<Opt>, o: Opt)
    ensures Clash(seg, o) <==> (o.Signer? && TheSigner(seg).Some?) || (o.InKey? && TheKey(seg).Some?)
  {
    HasMeansArgs(seg);
  }

  lemma {:induction false} SegmentsAppend(opts: seq<Opt>, o: Opt)
    ensures var segs, segs' := Segments(opts), Segments(opts + [o]);
      if segs == [] || Clash(segs[|segs| - 1], o) then segs' == segs + [[o]]
      else segs' == segs[..|segs| - 1] + [segs[|segs| - 1] + [o]]
  {
    Snoc(opts, o);
    SegmentsStep(opts + [o]);
  }

  lemma {:induction false} HoldsBy(opts: seq<Opt>, closed: seq<seq<Opt>>, last: seq<Opt>, f: Fields)
    requires Segments(opts) == closed + [last] && HoldsOpen(closed, last, f)
    ensures Holds(opts, f)
  {
    Snoc(closed, last);
  }

  /** What a -signer option makes of the variables. */
  lemma {:induction false} SignerHolds(opts: seq<Opt>, file: string, f: Fields)
    requires Holds(opts, f)
    ensures Holds(opts + [Signer(file)], AfterSigner(f, file))
  {
    var segs, o := Segments(opts), Signer(file);
    SegmentsAppend(opts, o);
    if segs == [] {
      OpenFirst(o);
      HoldsBy(opts + [o], [], [o], AfterSigner(f, file));
    } else {
      var closed, last := segs[..|segs| - 1], segs[|segs| - 1];
      ClashMeans(last, o);
      if f.signer.Some? {
        FrontLast(segs);
        Closes(closed, last, o, f);
        HoldsBy(opts + [o], segs, [o], AfterSigner(f, file));
      } else {
        Joins(closed, last, o, f);
        HoldsBy(opts + [o], closed, last + [o], AfterSigner(f, file));
      }
    }
  }

  /** And an -inkey option; it is refused when the pending segment has a key and no signer. */
  lemma {:induction false} InKeyHolds(opts: seq<Opt>, file: string, f: Fields)
    requires Holds(opts, f)
    ensures AfterInKey(f, file).Some? ==> Holds(opts + [InKey(file)], AfterInKey(f, file).value)
    ensures AfterInKey(f, file).None? ==> StuckAt(opts, InKey(file))
  {
    var segs, o := Segments(opts), InKey(file);
    SegmentsAppend(opts, o);
    if segs == [] {
      OpenFirst(o);
      HoldsBy(opts + [o], [], [o], AfterInKey(f, file).value);
    } else {
      var closed, last := segs[..|segs| - 1], segs[|segs| - 1];
      ClashMeans(last, o);
      if f.key.None? {
        Joins(closed, last, o, f);
        HoldsBy(opts + [o], closed, last + [o], AfterInKey(f, file).value);
      } else if f.signer.Some? {
        FrontLast(segs);
        Closes(closed, last, o, f);
        HoldsBy(opts + [o], segs, [o], AfterInKey(f, file).value);
      }
    }
  }

  lemma {:induction false} PendingTakesParam(f: Fields, text: string)
    requires f.signer.Some? || f.key.Some?
    ensures AfterKeyOpt(f, text) == Some(f.(params := WithParam(f.params, |f.keys|, text)))
  {
  }

  /** And a -keyopt option; it is refused before any other. */
  lemma {:induction false} KeyOptHolds(opts: seq<Opt>, text: string, f: Fields)
    requires Holds(opts, f)
    ensures AfterKeyOpt(f, text).Some? <==> opts != []
    ensures AfterKeyOpt(f, text).Some? ==> Holds(opts + [KeyOpt(text)], AfterKeyOpt(f, text).value)
  {
    var segs, o := Segments(opts), KeyOpt(text);
    if segs != [] {
      var closed, last := segs[..|segs| - 1], segs[|segs| - 1];
      SegmentsAppend(opts, o);
      JoinsParam(closed, last, text, f);
      PendingTakesParam(f, text);
      HoldsBy(opts + [o], closed, last + [o], f.(params := WithParam(f.params, |f.keys|, text)));
    }
  }

  /** The last segment names no signer, and the option closes it. */
  ghost predicate StuckAt(opts: seq<Opt>, o: Opt) {
    var segs := Segments(opts);
    segs != [] && TheSigner(segs[|segs| - 1]).None? && Clash(segs[|segs| - 1], o)
  }

  class OptionState {
    var signerfile: Option<string>
    var keyfile: Option<string>
    var sksigners: seq<string>
    var skkeys: seq<string>
    var keyParams: seq<Param>

    constructor ()
      ensures View() == NO_FIELDS
    {
      signerfile, keyfile, sksigners, skkeys, keyParams := None, None, [], [], [];
    }

    ghost function View(): Fields
      reads this
    {
      Fields(signerfile, keyfile, sksigners, skkeys, keyParams)
    }

    /** Moves the pending signer and key to the lists. */
    method PushPending()
      requires signerfile.Some?
      modifies `sksigners, `skkeys
      ensures View() == Pushed(old(View()))
    {
      sksigners := sksigners + [signerfile.value];
      skkeys := skkeys + [if keyfile.Some? then keyfile.value else signerfile.value];
    }

    method OptSigner(file: string)
      modifies this
      ensures View() == AfterSigner(old(View()), file)
    {
      if signerfile.Some? {
        PushPending();
        keyfile := None;
      }
      signerfile := Some(file);
    }

    method OptInKey(file: string) returns (ok: bool)
      modifies this
      ensures ok <==> AfterInKey(old(View()), file).Some?
      ensures View() == if ok then AfterInKey(old(View()), file).value else old(View())
    {
      if keyfile.Some? {
        if signerfile.None? {
          return false;
        }
        PushPending();
        signerfile := None;
      }
      keyfile := Some(file);
      return true;
    }

    method OptKeyOpt(text: string) returns (ok: bool)
      modifies `keyParams
      ensures ok <==> AfterKeyOpt(old(View()), text).Some?
      ensures View() == if ok then AfterKeyOpt(old(View()), text).value else old(View())
    {
      var keyidx: int := -1;
      if keyfile.Some? || signerfile.Some? {
        keyidx := keyidx + 1;
      }
      keyidx := keyidx + |skkeys|;
      if keyidx < 0 {
        return false;
      }
      keyParams := AddParam(keyParams, keyidx, text);
      return true;
    }
  }

  /** The tail of the parameter list is extended, or a new element is linked in. */
  method AddParam(ps: seq<Param>, keyidx: nat, text: string) returns (r: seq<Param>)
    ensures r == WithParam(ps, keyidx, text)
  {
    r := ps;
    if ps == [] || ps[|ps| - 1].idx != keyidx {
      r := r + [Param(keyidx, [])];
      assert r[|r| - 1].texts + [text] == [text];
    }
    r := r[|r| - 1 := Param(keyidx, r[|r| - 1].texts + [text])];
  }

  /** A segment closed without a signer stays, whatever follows. */
  lemma {:induction false} RefusedForGood(opts: seq<Opt>, n: nat, k: nat)
    requires n <= |opts| && k + 1 < |Segments(opts[..n])| && TheSigner(Segments(opts[..n])[k]).None?
    ensures k < |Segments(opts)| && TheSigner(Segments(opts)[k]).None?
    decreases |opts| - n
  {
    if n < |opts| {
      TakeOneMore(opts, n);
      SegmentsAppend(opts[..n], opts[n]);
      RefusedForGood(opts, n + 1, k);
    } else {
      assert opts[..n] == opts;
    }
  }

  lemma {:induction false} StuckForGood(opts: seq<Opt>, i: nat)
    requires i < |opts| && StuckAt(opts[..i], opts[i])
    ensures !Acceptable(opts)
  {
    TakeOneMore(opts, i);
    SegmentsAppend(opts[..i], opts[i]);
    RefusedForGood(opts, i + 1, |Segments(opts[..i])| - 1);
  }

  /** One option of the command line. */
  method TakeOption(st: OptionState, opts: seq<Opt>, i: nat) returns (ok: bool)
    requires i < |opts| && Holds(opts[..i], st.View())
    modifies st
    ensures ok ==> Holds(opts[..i + 1], st.View()) && (i == 0 ==> !opts[0].KeyOpt?)
    ensures !ok ==> !Acceptable(opts)
  {
    TakeOneMore(opts, i);
    ghost var f := st.View();
    ok := true;
    match opts[i] {
      case Signer(file) =>
        SignerHolds(opts[..i], file, f);
        st.OptSigner(file);
      case InKey(file) =>
        InKeyHolds(opts[..i], file, f);
        ok := st.OptInKey(file);
        if !ok { StuckForGood(opts, i); }
      case KeyOpt(text) =>
        KeyOptHolds(opts[..i], text, f);
        ok := st.OptKeyOpt(text);
    }
  }

  /** What the variables say in the end. */
  lemma {:induction false} Finished(opts: seq<Opt>, f: Fields)
    requires Holds(opts, f) && (opts != [] ==> !opts[0].KeyOpt?)
    ensures Acceptable(opts) <==> f.signer.Some?
    ensures f.signer.None? ==> f.key.Some? || f == NO_FIELDS
    ensures f.signer.Some? ==> var g := Pushed(f); g.signers != [] && Result(g.signers, g.keys, g.params) == Meaning(opts)
  {
    var segs := Segments(opts);
    if segs != [] {
      FrontLast(segs);
      if f.signer.Some? {
        PairSnoc(segs[..|segs| - 1], segs[|segs| - 1]);
      } else {
        assert TheSigner(segs[|segs| - 1]).None?;
      }
    }
  }

  /** The last checks after the option loop: the pending pair is pushed. */
  method Finish(st: OptionState, ghost opts: seq<Opt>) returns (r: Option<Result>)
    requires Holds(opts, st.View()) && (opts != [] ==> !opts[0].KeyOpt?)
    modifies st
    ensures r.Some? <==> Acceptable(opts)
    ensures r.Some? ==> r.value == Meaning(opts)
  {
    Finished(opts, st.View());
    if st.keyfile.Some? && st.signerfile.None? {
      return None;
    }
    if st.signerfile.Some? {
      st.PushPending();
    }
    if st.sksigners == [] {
      return None;
    }
    st.signerfile, st.keyfile := None, None;
    return Some(Result(st.sksigners, st.skkeys, st.keyParams));
  }

  /** The options one after the other. */
  method ParseOptions(opts: seq<Opt>) returns (r: Option<Result>)
    ensures r.Some? <==> Acceptable(opts)
    ensures r.Some? ==> r.value == Meaning(opts)
  {
    var st := new OptionState();
    assert opts[..0] == [];
    for i := 0 to |opts|
      invariant Holds(opts[..i], st.View())
      invariant i > 0 ==> !opts[0].KeyOpt?
      invariant fresh(st)
    {
      var ok := TakeOption(st, opts, i);
      if !ok {
        return None;
      }
    }
    Whole(opts);
    r := Finish(st, opts);
  }
}
