/**
  Analysis phases: plain configuration presets that decide how deep the
  comparator looks (quick: codes and quantities; full: also names and
  properties, with a tighter quantity tolerance).
 */
module Phases {
  import opened Wrappers
  import opened Assoc

  datatype Phase = QuickCheck | FullAnalysis

  datatype PhaseConfig = PhaseConfig(
    name: string,
    description: string,
    checkCodes: bool,
    checkUnits: bool,
    checkQuantities: bool,
    checkProperties: bool,
    checkNames: bool,
    quantityTolerance: real,
    sheets: seq<string>,
    includeSummary: bool,
    includeOkMatches: bool,
    colorErrorsOnly: bool)

  /** The sheet list used when none is given. */
  const DefaultSheets: seq<string> := ["Discrepancias"]

  /** Construction followed by `__post_init__`: an empty sheet list becomes the default one. */
  function MakeConfig(raw: PhaseConfig): (c: PhaseConfig)
    ensures c.sheets != []
    ensures raw.sheets != [] ==> c == raw
    ensures raw.sheets == [] ==> c == raw.(sheets := DefaultSheets)
  {
    if raw.sheets == [] then raw.(sheets := DefaultSheets) else raw
  }

  /** Running the post-construction step again changes nothing. */
  lemma MakeConfigIdempotent(raw: PhaseConfig)
    ensures MakeConfig(MakeConfig(raw)) == MakeConfig(raw)
  {
  }

  /** `PhaseConfig(name=name)`: every other field at its declared default. */
  function DefaultConfig(name: string): (c: PhaseConfig)
    ensures c.name == name && c.description == ""
    ensures c.checkCodes && c.checkUnits && c.checkQuantities
    ensures !c.checkProperties && !c.checkNames
    ensures c.quantityTolerance == 0.1
    ensures c.sheets == DefaultSheets
    ensures c.includeSummary && c.includeOkMatches && !c.colorErrorsOnly
  {
    MakeConfig(PhaseConfig(name, "", true, true, true, false, false, 0.1, [], true, true, false))
  }

  const QuickCheckConfig: PhaseConfig := MakeConfig(PhaseConfig(
    "Fase 1: Códigos y Cantidades",
    "Validación de códigos y cantidades. Detecta emparejamientos por descripción (códigos diferentes) y diferencias de cantidad. Ideal para revisión inicial.",
    true, true, true, false, false, 0.1,
    ["Resumen", "Discrepancias", "Coincidencias", "Sin Presupuestar", "Sin Modelar"],
    true, true, false))

  const FullAnalysisConfig: PhaseConfig := MakeConfig(PhaseConfig(
    "Anàlisi Completa",
    "Comparació exhaustiva de totes les propietats. Inclou anàlisi detallada i informe complet amb totes les pestanyes.",
    true, true, true, true, true, 0.01,
    ["Resumen", "Discrepancias", "Elementos Emparejados", "Sin Presupuestar", "Sin Modelar"],
    true, true, false))

  /** The `PHASES` dictionary, in declaration order. */
  const Phases: seq<(Phase, PhaseConfig)> := [(QuickCheck, QuickCheckConfig), (FullAnalysis, FullAnalysisConfig)]

  /** `get_phase_config`: every phase has an entry, so the lookup never fails. */
  function GetPhaseConfig(p: Phase): (c: PhaseConfig)
    ensures Get(Phases, p) == Some(c)
    ensures p == QuickCheck ==> !c.checkProperties && !c.checkNames && c.quantityTolerance == 0.1
    ensures p == FullAnalysis ==> c.checkProperties && c.checkNames && c.quantityTolerance == 0.01
    ensures c.checkCodes && c.checkUnits && c.checkQuantities
  {
    assert p in Keys(Phases) by {
      assert Keys(Phases)[if p == QuickCheck then 0 else 1] == p;
    }
    Get(Phases, p).value
  }

  /** `get_available_phases`: one (phase, name, description) per entry, in order. */
  function AvailablePhases(): (r: seq<(Phase, string, string)>)
    ensures |r| == |Phases|
    ensures forall i :: 0 <= i < |r| ==> r[i] == (Phases[i].0, Phases[i].1.name, Phases[i].1.description)
  {
    seq(|Phases|, i requires 0 <= i < |Phases| => (Phases[i].0, Phases[i].1.name, Phases[i].1.description))
  }

  /** Every phase can be chosen from the list of available phases. */
  lemma AvailablePhasesComplete(p: Phase)
    ensures exists i :: 0 <= i < |AvailablePhases()| && AvailablePhases()[i].0 == p
                        && AvailablePhases()[i].1 == GetPhaseConfig(p).name
  {
    if p == QuickCheck {
      assert AvailablePhases()[0].0 == p;
    } else {
      assert AvailablePhases()[1].0 == p;
    }
  }
}
