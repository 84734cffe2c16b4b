/**
 * Instructions and the recognisers that build and apply them.
 *
 * An instruction element binds the text of a marker (its expression) to the
 * run that holds it.  A recogniser (instruction manager) says whether a
 * marker is of its kind, builds the element for it and applies an element:
 * the interpolation recogniser evaluates the expression against the data
 * model and writes the result into the bound run.  The instruction service
 * keeps the ordered list of recognisers: creation goes to the first one that
 * accepts the marker, processing goes to every one of them.
 *
 * The template engine is the parameter `eval`: what it answers for an
 * expression and a data model, or the failure it raises.
 */
module Instructions {
  import opened Wrappers
  import opened Runs
  import opened Document
  import Markers

  /** The data model handed to the template engine. */
  datatype DataModel = DataModel(entries: map<string, string>)

  /** What the template engine answers: the text an expression evaluates to, or the error it raised. */
  datatype Evaluation = Evaluated(text: string) | Failed(message: string)

  /** How processing ends: normally, or with the template engine's error propagating to the caller. */
  datatype Outcome = Done | Aborted(message: string)

  /** The concrete class of an instruction element. */
  datatype Kind = InterpolationElement | OtherElement

  // ---------------------------------------------------------------------
  // Instruction elements
  // ---------------------------------------------------------------------

  /** An instruction element (AbstractInstructionElement): an expression and the run it is bound to. */
  class InstructionElement {
    const kind: Kind
    var expression: Option<string>
    var run: Run?

    /** The no-argument constructor: neither field is set. */
    constructor Unset(kind: Kind)
      ensures this.kind == kind
      ensures GetExpression() == None && GetRun() == null
    {
      this.kind := kind;
      expression := None;
      run := null;
    }

    /** The two-argument constructor: the getters give back exactly the arguments. */
    constructor (kind: Kind, expression: string, run: Run?)
      ensures this.kind == kind
      ensures GetExpression() == Some(expression) && GetRun() == run
    {
      this.kind := kind;
      this.expression := Some(expression);
      this.run := run;
    }

    /** The type the base class reports, whatever the element. */
    function GetType(): (t: string)
      ensures t == "undefined"
    {
      "undefined"
    }

    function GetExpression(): Option<string>
      reads this
    {
      expression
    }

    function GetRun(): Run?
      reads this
    {
      run
    }

    /** setExpression changes the expression and nothing else. */
    method SetExpression(expression: string)
      modifies this
      ensures GetExpression() == Some(expression) && GetRun() == old(GetRun())
    {
      this.expression := Some(expression);
    }

    /** setRun changes the run and nothing else. */
    method SetRun(run: Run?)
      modifies this
      ensures GetRun() == run && GetExpression() == old(GetExpression())
    {
      this.run := run;
    }
  }

  // ---------------------------------------------------------------------
  // Recognisers
  // ---------------------------------------------------------------------

  /** An instruction manager.  The interpolation manager is the only one there is. */
  datatype Manager = InterpolationManager
  {
    /**
     * isOfType: whether the manager takes the expression.  The interpolation
     * manager searches it for  \$\{.*?\}  anywhere, not only as a whole.
     */
    function IsOfType(expression: string): bool
    {
      match this
      case InterpolationManager => Markers.FindInterpolationFrom(expression, 0)
    }

    /** The kind of element the manager builds. */
    function Kind(): Kind
    {
      match this
      case InterpolationManager => InterpolationElement
    }

    /** createInstruction: a new element of the manager's kind, bound to exactly the given expression and run. */
    method CreateInstruction(expression: string, run: Run?) returns (e: InstructionElement)
      ensures fresh(e)
      ensures e.kind == Kind()
      ensures e.GetExpression() == Some(expression) && e.GetRun() == run
    {
      match this
      case InterpolationManager =>
        e := new InstructionElement(InterpolationElement, expression, run);
    }

    /**
     * processInstruction: on an interpolation element, the bound run's text
     * becomes the evaluated expression and its formatting stays; on any other
     * element (on null too) nothing changes.  An evaluation error changes
     * nothing and is passed on.
     */
    method ProcessInstruction(element: InstructionElement?, model: DataModel,
                              eval: (string, DataModel) -> Evaluation) returns (outcome: Outcome)
      requires Processable(element)
      modifies if element != null && element.kind == InterpolationElement then {element.run} else {}
      ensures element != null && element.kind == InterpolationElement ==>
        element.run != null && element.run.fmt == old(element.run.fmt)
        && (element.run.text, outcome) == ProcessV(this, element.kind, element.expression.value, model, eval, old(element.run.text))
      ensures (element == null || element.kind != InterpolationElement) ==> outcome == Done
    {
      match this
      case InterpolationManager =>
        if element != null && element.kind == InterpolationElement {
          var run := element.GetRun();
          match eval(element.GetExpression().value, model)
          case Evaluated(value) =>
            run.text := value;
            outcome := Done;
          case Failed(message) =>
            outcome := Aborted(message);
        } else {
          outcome := Done;
        }
    }
  }

  /** isMulti: an interpolation never spans several runs. */
  function IsMulti(): (multi: bool)
    ensures !multi
  {
    false
  }

  /** The interpolation manager takes exactly the expressions that contain an interpolation marker. */
  lemma IsOfTypeIff(expression: string)
    ensures InterpolationManager.IsOfType(expression) <==> Markers.ContainsInterpolation(expression)
  {
    Markers.FindInterpolationIff(expression);
  }

  /** A marker with text around it is taken; a directive is not. */
  lemma IsOfTypeExamples()
    ensures InterpolationManager.IsOfType("x${a}y")
    ensures !InterpolationManager.IsOfType("<#if c>")
  {
    var s := "x${a}y";
    assert Markers.IsInterpolationMarker(s[1..5]);
    IsOfTypeIff(s);
  }

  /** An element whose processing dereferences nothing unset: an interpolation needs both fields. */
  predicate Processable(e: InstructionElement?)
    reads e
  {
    e == null || e.kind != InterpolationElement || (e.run != null && e.expression.Some?)
  }

  /**
   * What one manager's processInstruction does to the text of the run an
   * element is bound to: the new text, and whether the engine failed.
   */
  function ProcessV(m: Manager, kind: Kind, expression: string, model: DataModel,
                    eval: (string, DataModel) -> Evaluation, text: string): (string, Outcome)
  {
    match m
    case InterpolationManager =>
      if kind != InterpolationElement then (text, Done)
      else match eval(expression, model)
        case Evaluated(value) => (value, Done)
        case Failed(message) => (text, Aborted(message))
  }

  // ---------------------------------------------------------------------
  // The instruction service
  // ---------------------------------------------------------------------

  /** The position of the first manager that takes the expression (|ms| when none does). */
  function FirstAccepting(ms: seq<Manager>, expression: string): (k: nat)
    ensures k <= |ms|
    ensures k < |ms| ==> ms[k].IsOfType(expression)
    ensures forall j :: 0 <= j < k ==> !ms[j].IsOfType(expression)
  {
    if |ms| == 0 then 0
    else if ms[0].IsOfType(expression) then 0
    else FirstAccepting(ms[1..], expression) + 1
  }

  /**
   * The text of the bound run, and how processing ends, once the managers
   * ms have processed an element one after the other; the first error stops
   * the broadcast.
   */
  function Broadcast(ms: seq<Manager>, kind: Kind, expression: string, model: DataModel,
                     eval: (string, DataModel) -> Evaluation, text: string): (string, Outcome)
  {
    if |ms| == 0 then (text, Done)
    else
      var (t, o) := ProcessV(ms[0], kind, expression, model, eval, text);
      if o.Aborted? then (t, o) else Broadcast(ms[1..], kind, expression, model, eval, t)
  }

  lemma BroadcastStep(ms: seq<Manager>, i: nat, kind: Kind, expression: string, model: DataModel,
                      eval: (string, DataModel) -> Evaluation, text: string)
    requires i < |ms|
    ensures var (t, o) := Broadcast(ms[..i], kind, expression, model, eval, text);
      o.Done? ==>
        Broadcast(ms[..i + 1], kind, expression, model, eval, text)
        == (var (t', o') := ProcessV(ms[i], kind, expression, model, eval, t); (t', o'))
  {
    if i > 0 {
      assert ms[..i + 1][1..] == ms[1..][..i];
      assert ms[..i][1..] == ms[1..][..i - 1];
      BroadcastStep(ms[1..], i - 1, kind, expression, model, eval,
                    ProcessV(ms[0], kind, expression, model, eval, text).0);
    }
  }

  /** Once a broadcast has failed, the managers after that change nothing. */
  lemma BroadcastAborted(ms: seq<Manager>, i: nat, kind: Kind, expression: string, model: DataModel,
                         eval: (string, DataModel) -> Evaluation, text: string)
    requires i < |ms|
    ensures Broadcast(ms[..i], kind, expression, model, eval, text).1.Aborted? ==>
      Broadcast(ms[..i + 1], kind, expression, model, eval, text) == Broadcast(ms[..i], kind, expression, model, eval, text)
  {
    if i > 0 {
      assert ms[..i + 1][1..] == ms[1..][..i];
      assert ms[..i][1..] == ms[1..][..i - 1];
      BroadcastAborted(ms[1..], i - 1, kind, expression, model, eval,
                       ProcessV(ms[0], kind, expression, model, eval, text).0);
    }
  }

  /**
   * Processing an interpolation by several interpolation managers is the same
   * as processing it once: each writes the same evaluated text.
   */
  lemma {:induction false} BroadcastInterpolationOnce(n: nat, expression: string, model: DataModel,
                                                       eval: (string, DataModel) -> Evaluation, text: string)
    requires n > 0
    ensures Broadcast(seq(n, _ => InterpolationManager), InterpolationElement, expression, model, eval, text)
      == ProcessV(InterpolationManager, InterpolationElement, expression, model, eval, text)
  {
    var ms := seq(n, _ => InterpolationManager);
    if n > 1 {
      assert ms[1..] == seq(n - 1, _ => InterpolationManager);
      BroadcastInterpolationOnce(n - 1, expression, model, eval,
                                 ProcessV(InterpolationManager, InterpolationElement, expression, model, eval, text).0);
    } else {
      assert ms[1..] == [];
    }
  }

  /** Elements of any other kind are left alone by every manager. */
  lemma {:induction false} BroadcastOtherKind(ms: seq<Manager>, expression: string, model: DataModel,
                                               eval: (string, DataModel) -> Evaluation, text: string)
    ensures Broadcast(ms, OtherElement, expression, model, eval, text) == (text, Done)
    decreases |ms|
  {
    if |ms| > 0 {
      BroadcastOtherKind(ms[1..], expression, model, eval, text);
    }
  }

  /** The instruction service: the ordered list of managers. */
  class InstructionService {
    const managers: seq<Manager>

    /** The registry holds the interpolation manager and nothing else. */
    constructor ()
      ensures managers == [InterpolationManager]
    {
      managers := [InterpolationManager];
    }

    /**
     * createInstruction: the element built by the first manager, in list
     * order, that takes the expression; null when none does.
     */
    method CreateInstruction(expression: string, run: Run?) returns (e: InstructionElement?)
      ensures FirstAccepting(managers, expression) == |managers| ==> e == null
      ensures FirstAccepting(managers, expression) < |managers| ==>
        e != null && fresh(e) && e.kind == managers[FirstAccepting(managers, expression)].Kind()
        && e.GetExpression() == Some(expression) && e.GetRun() == run
    {
      var i := 0;
      while i < |managers|
        invariant i <= |managers|
        invariant forall j :: 0 <= j < i ==> !managers[j].IsOfType(expression)
      {
        if managers[i].IsOfType(expression) {
          e := managers[i].CreateInstruction(expression, run);
          return;
        }
        i := i + 1;
      }
      e := null;
    }

    /**
     * processInstruction: every manager, in list order, processes the same
     * element, whatever its kind; an evaluation error stops the broadcast
     * and is passed on.
     */
    method ProcessInstruction(instruction: InstructionElement?, model: DataModel,
                              eval: (string, DataModel) -> Evaluation) returns (outcome: Outcome)
      requires Processable(instruction)
      modifies if instruction != null && instruction.kind == InterpolationElement then {instruction.run} else {}
      ensures instruction != null && instruction.kind == InterpolationElement ==>
        instruction.run != null && instruction.run.fmt == old(instruction.run.fmt)
        && (instruction.run.text, outcome)
           == Broadcast(managers, instruction.kind, instruction.expression.value, model, eval, old(instruction.run.text))
      ensures (instruction == null || instruction.kind != InterpolationElement) ==> outcome == Done
    {
      outcome := Done;
      var i := 0;
      while i < |managers|
        invariant i <= |managers|
        invariant instruction != null && instruction.kind == InterpolationElement ==>
          instruction.run.fmt == old(instruction.run.fmt)
          && (instruction.run.text, outcome)
             == Broadcast(managers[..i], instruction.kind, instruction.expression.value, model, eval, old(instruction.run.text))
        invariant (instruction == null || instruction.kind != InterpolationElement) ==> outcome == Done
        invariant outcome.Aborted? ==> instruction != null && instruction.kind == InterpolationElement
      {
        if outcome.Done? {
          if instruction != null && instruction.kind == InterpolationElement {
            BroadcastStep(managers, i, instruction.kind, instruction.expression.value, model, eval, old(instruction.run.text));
          }
          outcome := managers[i].ProcessInstruction(instruction, model, eval);
        } else {
          BroadcastAborted(managers, i, instruction.kind, instruction.expression.value, model, eval, old(instruction.run.text));
        }
        i := i + 1;
      }
      assert managers[..i] == managers;
    }
  }

  /** The static field that holds the instruction service once it is built. */
  class ServiceHolder {
    var instance: InstructionService?

    /** Only init sets the field, so the service it holds, if any, is the one init builds. */
    ghost predicate Valid()
      reads this
    {
      instance != null ==> instance.managers == [InterpolationManager]
    }

    constructor ()
      ensures instance == null && Valid()
    {
      instance := null;
    }

    /** init: the first call builds the service; every call returns the one held. */
    method Init() returns (s: InstructionService)
      requires Valid()
      modifies this
      ensures Valid() && instance == s && s.managers == [InterpolationManager]
      ensures old(instance) != null ==> s == old(instance)
      ensures old(instance) == null ==> fresh(s)
    {
      if instance == null {
        instance := new InstructionService();
      }
      s := instance;
    }
  }

  /** Two calls of init return the same service. */
  method InitTwice(holder: ServiceHolder) returns (s1: InstructionService, s2: InstructionService)
    requires holder.Valid()
    modifies holder
    ensures s1 == s2 == holder.instance
  {
    s1 := holder.Init();
    s2 := holder.Init();
  }
}
