/**
 * The risks and artifacts cards. Each risk and each artifact is an object: the list operations
 * build new arrays, but the field updates copy the array shallowly and then write into the shared
 * element, so the previous array sees the change too. The card also holds the impact menu (which
 * risk's impact is being chosen) and the format menu (which field the formatting applies to).
 */
module RisksArtifacts {
  import opened Wrappers
  import opened JsArray
  import opened Gantt
  import opened Storage
  import opened FormatMenu

  class RiskItem {
    var risk: string
    var impact: Status
    var mitigation: string

    constructor(r: string, i: Status, m: string)
      ensures risk == r && impact == i && mitigation == m
    {
      risk, impact, mitigation := r, i, m;
    }
  }

  class ArtifactItem {
    var caption: string
    var url: string

    constructor(c: string, u: string)
      ensures caption == c && url == u
    {
      caption, url := c, u;
    }
  }

  /** What one update writes into a risk. */
  datatype RiskUpdate = SetRisk(text: string) | SetImpact(impact: Status) | SetMitigation(text: string)

  /** The two artifact fields `updateArtifact` can write. */
  datatype ArtifactField = CaptionField | UrlField

  /** The field the format menu was opened on. */
  datatype MenuTarget = RiskTarget | MitigationTarget | ArtifactTarget

  /** The format menu's target: field and element index, both absent until it is opened. */
  datatype FormatTarget = FormatTarget(target: Option<MenuTarget>, index: Option<int>)

  /** The value a risk object currently holds. */
  function RiskValue(x: RiskItem): Risk
    reads x
  {
    Risk(x.risk, x.impact, x.mitigation)
  }

  /** The value an artifact object currently holds. */
  function ArtifactValue(x: ArtifactItem): Artifact
    reads x
  {
    Artifact(x.caption, x.url)
  }

  /** A risk with one update applied. */
  function Updated(r: Risk, u: RiskUpdate): Risk
  {
    match u
    case SetRisk(t) => r.(risk := t)
    case SetImpact(i) => r.(impact := i)
    case SetMitigation(t) => r.(mitigation := t)
  }

  /** An artifact with one field rewritten. */
  function UpdatedArtifact(a: Artifact, field: ArtifactField, value: string): Artifact
  {
    match field
    case CaptionField => a.(caption := value)
    case UrlField => a.(url := value)
  }

  /** The risk `addRisk` appends. */
  const NewRisk := Risk("New risk", Yellow, "Mitigation plan")
  /** The artifact `addArtifact` appends. */
  const NewArtifact := Artifact("\U{1F4C4} New artifact", "#")

  /** The impact's label: green is Low, yellow Medium, red High. */
  function ImpactLabel(s: Status): (r: string)
    ensures s == Green <==> r == "Low"
    ensures s == Yellow <==> r == "Medium"
    ensures s == Red <==> r == "High"
  {
    match s
    case Green => "Low"
    case Yellow => "Medium"
    case Red => "High"
  }

  /** The impact's text colour class, one per status. */
  function ImpactColor(s: Status): (r: string)
    ensures s == Green <==> r == "text-green-500"
    ensures s == Yellow <==> r == "text-yellow-500"
    ensures s == Red <==> r == "text-red-500"
  {
    match s
    case Green => "text-green-500"
    case Yellow => "text-yellow-500"
    case Red => "text-red-500"
  }

  /** The label tells the impact: different impacts never share a label. */
  lemma ImpactLabelInjective(a: Status, b: Status)
    requires ImpactLabel(a) == ImpactLabel(b)
    ensures a == b
  {
  }

  /** Right click, or Ctrl+click with the main button, opens the impact menu. */
  predicate OpensImpactMenu(button: int, ctrl: bool)
  {
    button == 2 || (button == 0 && ctrl)
  }

  class RisksCard {
    var risks: seq<RiskItem>
    var artifacts: seq<ArtifactItem>
    /** The risk whose impact menu is open, if any. */
    var impactMenu: Option<int>
    var formatMenu: FormatTarget

    /** Every list element is its own object. */
    predicate Valid()
      reads this
    {
      (forall i, j :: 0 <= i < j < |risks| ==> risks[i] != risks[j])
      && (forall i, j :: 0 <= i < j < |artifacts| ==> artifacts[i] != artifacts[j])
    }

    /** The risks as values. */
    function Risks(): (r: seq<Risk>)
      reads this, risks
      ensures |r| == |risks| && forall k :: 0 <= k < |risks| ==> r[k] == RiskValue(risks[k])
    {
      seq(|risks|, k reads this, risks requires 0 <= k < |risks| => RiskValue(risks[k]))
    }

    /** The artifacts as values. */
    function Artifacts(): (r: seq<Artifact>)
      reads this, artifacts
      ensures |r| == |artifacts| && forall k :: 0 <= k < |artifacts| ==> r[k] == ArtifactValue(artifacts[k])
    {
      seq(|artifacts|, k reads this, artifacts requires 0 <= k < |artifacts| => ArtifactValue(artifacts[k]))
    }

    constructor(rs: seq<Risk>, arts: seq<Artifact>)
      ensures Valid() && Risks() == rs && Artifacts() == arts
      ensures impactMenu == None && formatMenu == FormatTarget(None, None)
    {
      risks := [];
      artifacts := [];
      impactMenu := None;
      formatMenu := FormatTarget(None, None);
      new;
      var i := 0;
      while i < |rs|
        invariant 0 <= i <= |rs| && |risks| == i && artifacts == []
        invariant impactMenu == None && formatMenu == FormatTarget(None, None)
        invariant forall k :: 0 <= k < i ==> fresh(risks[k]) && RiskValue(risks[k]) == rs[k]
        invariant forall p, q :: 0 <= p < q < i ==> risks[p] != risks[q]
      {
        var x := new RiskItem(rs[i].risk, rs[i].impact, rs[i].mitigation);
        risks := risks + [x];
        i := i + 1;
      }
      i := 0;
      while i < |arts|
        invariant 0 <= i <= |arts| && |artifacts| == i
        invariant impactMenu == None && formatMenu == FormatTarget(None, None)
        invariant forall k :: 0 <= k < i ==> fresh(artifacts[k]) && ArtifactValue(artifacts[k]) == arts[k]
        invariant forall p, q :: 0 <= p < q < i ==> artifacts[p] != artifacts[q]
        invariant |risks| == |rs| && forall k :: 0 <= k < |rs| ==> RiskValue(risks[k]) == rs[k]
        invariant forall p, q :: 0 <= p < q < |risks| ==> risks[p] != risks[q]
      {
        var x := new ArtifactItem(arts[i].caption, arts[i].url);
        artifacts := artifacts + [x];
        i := i + 1;
      }
    }

    /** `addRisk`: a new risk object with the default texts and yellow impact goes at the end. */
    method AddRisk()
      requires Valid()
      modifies this
      ensures Valid()
      ensures |risks| == |old(risks)| + 1 && risks[..|old(risks)|] == old(risks) && fresh(risks[|old(risks)|])
      ensures Risks() == old(Risks()) + [NewRisk]
      ensures artifacts == old(artifacts) && impactMenu == old(impactMenu) && formatMenu == old(formatMenu)
    {
      var x := new RiskItem(NewRisk.risk, NewRisk.impact, NewRisk.mitigation);
      risks := risks + [x];
    }

    /** `removeRisk`: the array without position `idx`; nothing is removed for an index out of range. */
    method RemoveRisk(idx: int)
      requires Valid()
      modifies this
      ensures Valid()
      ensures risks == Without(old(risks), idx)
      ensures Risks() == Without(old(Risks()), idx)
      ensures artifacts == old(artifacts) && impactMenu == old(impactMenu) && formatMenu == old(formatMenu)
    {
      risks := Without(risks, idx);
    }

    /**
     * `updateRisk`: the element at `idx` itself is rewritten, in the new array and in the old one
     * alike; for an index out of range the write throws and nothing changes.
     */
    method UpdateRisk(idx: int, u: RiskUpdate)
      requires Valid()
      modifies if 0 <= idx < |risks| then {risks[idx]} else {}
      ensures Valid()
      ensures risks == old(risks)
      ensures 0 <= idx < |risks| ==> Risks() == old(Risks())[idx := Updated(old(Risks())[idx], u)]
      ensures !(0 <= idx < |risks|) ==> Risks() == old(Risks())
    {
      if 0 <= idx < |risks| {
        var x := risks[idx];
        match u
        case SetRisk(t) => x.risk := t;
        case SetImpact(i) => x.impact := i;
        case SetMitigation(t) => x.mitigation := t;
      }
    }

    /** `handleImpactClick`: right click or Ctrl+click opens the impact menu for that risk. */
    method ImpactClick(button: int, ctrl: bool, idx: int)
      modifies this
      ensures impactMenu == if OpensImpactMenu(button, ctrl) then Some(idx) else old(impactMenu)
      ensures risks == old(risks) && artifacts == old(artifacts) && formatMenu == old(formatMenu)
    {
      if OpensImpactMenu(button, ctrl) {
        impactMenu := Some(idx);
      }
    }

    /**
     * `setImpact`: with the impact menu open on an existing risk, that risk takes the impact and
     * the menu closes. When the menu's risk is gone, `updateRisk` throws before the menu is
     * closed, so nothing changes and the menu stays open.
     */
    method ChooseImpact(impact: Status)
      requires Valid()
      modifies this, if impactMenu.Some? && 0 <= impactMenu.value < |risks| then {risks[impactMenu.value]} else {}
      ensures Valid()
      ensures risks == old(risks) && artifacts == old(artifacts) && formatMenu == old(formatMenu)
      ensures old(impactMenu).None? ==> Risks() == old(Risks()) && impactMenu == None
      ensures old(impactMenu).Some? && 0 <= old(impactMenu).value < |risks| ==>
        impactMenu == None
        && Risks() == old(Risks())[old(impactMenu).value := old(Risks())[old(impactMenu).value].(impact := impact)]
      ensures old(impactMenu).Some? && !(0 <= old(impactMenu).value < |risks|) ==>
        impactMenu == old(impactMenu) && Risks() == old(Risks())
    {
      if impactMenu.Some? && 0 <= impactMenu.value < |risks| {
        UpdateRisk(impactMenu.value, SetImpact(impact));
        impactMenu := None;
      }
    }

    /** `addArtifact`: a new artifact object with the default caption and `#` goes at the end. */
    method AddArtifact()
      requires Valid()
      modifies this
      ensures Valid()
      ensures |artifacts| == |old(artifacts)| + 1 && artifacts[..|old(artifacts)|] == old(artifacts)
      ensures fresh(artifacts[|old(artifacts)|])
      ensures Artifacts() == old(Artifacts()) + [NewArtifact]
      ensures risks == old(risks) && impactMenu == old(impactMenu) && formatMenu == old(formatMenu)
    {
      var x := new ArtifactItem(NewArtifact.caption, NewArtifact.url);
      artifacts := artifacts + [x];
    }

    /** `removeArtifact`: the array without position `idx`. */
    method RemoveArtifact(idx: int)
      requires Valid()
      modifies this
      ensures Valid()
      ensures artifacts == Without(old(artifacts), idx)
      ensures Artifacts() == Without(old(Artifacts()), idx)
      ensures risks == old(risks) && impactMenu == old(impactMenu) && formatMenu == old(formatMenu)
    {
      artifacts := Without(artifacts, idx);
    }

    /** `updateArtifact`: the shared element at `idx` is rewritten; out of range nothing changes. */
    method UpdateArtifact(idx: int, field: ArtifactField, value: string)
      requires Valid()
      modifies if 0 <= idx < |artifacts| then {artifacts[idx]} else {}
      ensures Valid()
      ensures artifacts == old(artifacts)
      ensures 0 <= idx < |artifacts| ==>
        Artifacts() == old(Artifacts())[idx := UpdatedArtifact(old(Artifacts())[idx], field, value)]
      ensures !(0 <= idx < |artifacts|) ==> Artifacts() == old(Artifacts())
    {
      if 0 <= idx < |artifacts| {
        var x := artifacts[idx];
        match field
        case CaptionField => x.caption := value;
        case UrlField => x.url := value;
      }
    }

    /** `handleContextMenu`: the format menu opens on a field only over a non-empty selection. */
    method ContextMenu(selectedText: Option<string>, target: MenuTarget, index: int)
      modifies this
      ensures formatMenu == if MenuOpens(selectedText) then FormatTarget(Some(target), Some(index)) else old(formatMenu)
      ensures risks == old(risks) && artifacts == old(artifacts) && impactMenu == old(impactMenu)
    {
      if MenuOpens(selectedText) {
        formatMenu := FormatTarget(Some(target), Some(index));
      }
    }

    /**
     * `handleFormat`: nothing without a selection or a target, or when a link gets no URL, or when
     * the index names no element; otherwise the target field becomes its text before the range,
     * the formatted selection and its text after the range.
     */
    method HandleFormat(f: Format, sel: Option<DomSelection>, url: Option<string>)
      requires Valid()
      modifies risks, artifacts
      ensures Valid()
      ensures risks == old(risks) && artifacts == old(artifacts)
      ensures sel.None? || formatMenu.target.None? || formatMenu.index.None? || Formatted(f, sel.value.text, url).None? ==>
        Risks() == old(Risks()) && Artifacts() == old(Artifacts())
      ensures sel.Some? && formatMenu.target.Some? && formatMenu.index.Some? && Formatted(f, sel.value.text, url).Some? ==>
        var i, t, ft := formatMenu.index.value, formatMenu.target.value, Formatted(f, sel.value.text, url).value;
        var so, eo := sel.value.startOffset, sel.value.endOffset;
        (t == RiskTarget && 0 <= i < |risks| ==>
          Risks() == old(Risks())[i := old(Risks())[i].(risk := Splice(old(Risks())[i].risk, so, eo, ft))]
          && Artifacts() == old(Artifacts()))
        && (t == MitigationTarget && 0 <= i < |risks| ==>
          Risks() == old(Risks())[i := old(Risks())[i].(mitigation := Splice(old(Risks())[i].mitigation, so, eo, ft))]
          && Artifacts() == old(Artifacts()))
        && (t == ArtifactTarget && 0 <= i < |artifacts| ==>
          Artifacts() == old(Artifacts())[i := old(Artifacts())[i].(caption := Splice(old(Artifacts())[i].caption, so, eo, ft))]
          && Risks() == old(Risks()))
        && (t != ArtifactTarget && !(0 <= i < |risks|) ==> Risks() == old(Risks()) && Artifacts() == old(Artifacts()))
        && (t == ArtifactTarget && !(0 <= i < |artifacts|) ==> Risks() == old(Risks()) && Artifacts() == old(Artifacts()))
    {
      if sel.None? || formatMenu.target.None? || formatMenu.index.None? {
        return;
      }
      var formatted := Formatted(f, sel.value.text, url);
      if formatted.None? {
        return;
      }
      ApplyFormat(formatMenu.target.value, formatMenu.index.value, sel.value.startOffset, sel.value.endOffset,
                  formatted.value);
    }

    /** The update `handleFormat` makes once the target, the index and the formatted text are known. */
    method ApplyFormat(t: MenuTarget, i: int, so: int, eo: int, ft: string)
      requires Valid()
      modifies risks, artifacts
      ensures Valid()
      ensures risks == old(risks) && artifacts == old(artifacts)
      ensures t == RiskTarget && 0 <= i < |risks| ==>
        Risks() == old(Risks())[i := old(Risks())[i].(risk := Splice(old(Risks())[i].risk, so, eo, ft))]
        && Artifacts() == old(Artifacts())
      ensures t == MitigationTarget && 0 <= i < |risks| ==>
        Risks() == old(Risks())[i := old(Risks())[i].(mitigation := Splice(old(Risks())[i].mitigation, so, eo, ft))]
        && Artifacts() == old(Artifacts())
      ensures t == ArtifactTarget && 0 <= i < |artifacts| ==>
        Artifacts() == old(Artifacts())[i := old(Artifacts())[i].(caption := Splice(old(Artifacts())[i].caption, so, eo, ft))]
        && Risks() == old(Risks())
      ensures t != ArtifactTarget && !(0 <= i < |risks|) ==> Risks() == old(Risks()) && Artifacts() == old(Artifacts())
      ensures t == ArtifactTarget && !(0 <= i < |artifacts|) ==> Risks() == old(Risks()) && Artifacts() == old(Artifacts())
    {
      match t
      case RiskTarget =>
        if 0 <= i < |risks| {
          UpdateRisk(i, SetRisk(Splice(risks[i].risk, so, eo, ft)));
        }
      case MitigationTarget =>
        if 0 <= i < |risks| {
          UpdateRisk(i, SetMitigation(Splice(risks[i].mitigation, so, eo, ft)));
        }
      case ArtifactTarget =>
        if 0 <= i < |artifacts| {
          UpdateArtifact(i, CaptionField, Splice(artifacts[i].caption, so, eo, ft));
        }
    }
  }

  /**
   * The shallow copy in `updateRisk` shares the element: a reference to the array taken before the
   * update reads the new value afterwards.
   */
  method UpdateSeenThroughOldArray(card: RisksCard, idx: int, t: string)
    requires card.Valid() && 0 <= idx < |card.risks|
    modifies card.risks[idx]
    ensures card.risks[idx].risk == t
  {
    var before := card.risks;
    card.UpdateRisk(idx, SetRisk(t));
    assert before[idx] == card.risks[idx];
    assert RiskValue(card.risks[idx]) == card.Risks()[idx];
  }
}
