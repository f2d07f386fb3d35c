/**
  The advisory indicators ("AiTab"), the show/hide label of the button that
  toggles them, the role of the progress button and the result message.
  An indicator has two independent axes, whether it is drawn at all and
  whether its recommendation is revealed, plus the recommendation itself.
 */
module Indicators {

  datatype DisplayMode = Visible | Invisible

  datatype ValueMode = Populated | Unpopulated

  datatype AiTab = AiTab(display: DisplayMode, valueMode: ValueMode, recommended: bool)

  /** Label of the visibility button: it names the action a click would take. */
  datatype ShowAiLabel = ShowAi | HideAi

  /** What the progress button does when clicked. */
  datatype ProgressRole = Roll | Enter | Reset

  /** Which message the result line shows. */
  datatype ResultMode = YouWon | YouLost | Playing

  /** An indicator as constructed: drawn, unrevealed, recommending nothing. */
  function NewTab(): (t: AiTab)
    ensures t.display == Visible && t.valueMode == Unpopulated && !t.recommended
  {
    AiTab(Visible, Unpopulated, false)
  }

  /** Clears the recommendation and hides it; the user's show/hide choice survives. */
  function ResetTab(t: AiTab): (r: AiTab)
    ensures r.display == t.display
    ensures r.valueMode == Unpopulated && !r.recommended
  {
    t.(valueMode := Unpopulated, recommended := false)
  }

  function ToPopulated(t: AiTab): (r: AiTab)
    ensures r.valueMode == Populated
    ensures r.display == t.display && r.recommended == t.recommended
  {
    t.(valueMode := Populated)
  }

  function ToUnpopulated(t: AiTab): (r: AiTab)
    ensures r.valueMode == Unpopulated
    ensures r.display == t.display && r.recommended == t.recommended
  {
    t.(valueMode := Unpopulated)
  }

  /** Flips whether the indicator is drawn; the recommendation is kept. */
  function ToggleVisible(t: AiTab): (r: AiTab)
    ensures r.display != t.display
    ensures r.valueMode == t.valueMode && r.recommended == t.recommended
  {
    if t.display == Invisible then t.(display := Visible) else t.(display := Invisible)
  }

  function SetValue(t: AiTab, v: bool): (r: AiTab)
    ensures r.recommended == v
    ensures r.display == t.display && r.valueMode == t.valueMode
  {
    t.(recommended := v)
  }

  function ToggleLabel(l: ShowAiLabel): (r: ShowAiLabel)
    ensures r != l
  {
    match l
    case ShowAi => HideAi
    case HideAi => ShowAi
  }

  /** Each label tells which display mode every indicator is in: "hide ai" while they are drawn. */
  function LabelFor(m: DisplayMode): (l: ShowAiLabel)
    ensures l == HideAi <==> m == Visible
  {
    if m == Visible then HideAi else ShowAi
  }

  /** Toggling an indicator and toggling the label keep them in step. */
  lemma ToggleKeepsLabelInStep(t: AiTab, l: ShowAiLabel)
    requires l == LabelFor(t.display)
    ensures ToggleLabel(l) == LabelFor(ToggleVisible(t).display)
  {
  }
}
