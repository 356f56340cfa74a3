/** The actions of the configuration lexer over the rules that match, one after the other. */
module ConfigActions {
  import opened Text
  import opened Config

  datatype Condition =
    | Initial | TriggerEnv | LogEnv
    | ResourceSet | ResourceSingle | TriggerDurationSet | TriggerDurationSingle
    | LogDurationSet | LogDurationSingle | LogResolutionSet | LogResolutionSingle

  datatype DurationUnit = Seconds | Minutes | Hours | Days

  function SecondsIn(unit: DurationUnit): int
  {
    match unit
    case Seconds => 1
    case Minutes => 60
    case Hours => 60 * 60
    case Days => 60 * 60 * 24
  }

  /** The rule that matches next, with what its text contributes; `several` marks rules that end in an opening brace. */
  datatype Token =
    | Blank | KeyTrigger | KeyLog
    | KeyResource(resource: Resource)
    | KeyFluctuation(fluctuation: Fluctuation, several: bool)
    | KeyLast(several: bool) | KeyFor(several: bool) | KeyResolution(several: bool)
    | Number(value: int) | ValueUnit(unit: Unit) | TimeUnit(time: DurationUnit)
    | Comma | Close | Spaces | EndOfLine

  /** The lexer's global variables. */
  datatype LexerState = LexerState(
    condition: Condition, stack: seq<Condition>,
    currentDurationTime: int, lastReadDurationElement: int,
    currentTriggerType: TriggerType, triggerTypes: seq<TriggerType>,
    currentResourceValue: ResourceValue, triggerResourceValues: seq<ResourceValue>, triggerDurationTimes: seq<int>,
    currentLogType: LogType, logTypes: seq<LogType>, logDurations: seq<int>, logResolutions: seq<int>)
  {
    function Push(next: Condition): LexerState
    {
      this.(condition := next, stack := stack + [condition])
    }

    /** yy_pop_state; an empty stack is a fatal error. */
    function Pop(): Option<LexerState>
    {
      if stack == [] then None else Some(this.(condition := stack[|stack| - 1], stack := stack[..|stack| - 1]))
    }

    function PopTwice(): Option<LexerState>
    {
      match Pop() case None => None case Some(s) => s.Pop()
    }

    predicate ReadsDuration()
    {
      || condition.TriggerDurationSet? || condition.TriggerDurationSingle?
      || condition.LogDurationSet? || condition.LogDurationSingle?
      || condition.LogResolutionSet? || condition.LogResolutionSingle?
    }

    /** The duration just read goes to the vector the condition is about. */
    function TakeDuration(): LexerState
    {
      var s := this.(currentDurationTime := 0);
      if condition.TriggerDurationSet? || condition.TriggerDurationSingle? then
        s.(triggerDurationTimes := triggerDurationTimes + [currentDurationTime])
      else if condition.LogDurationSet? || condition.LogDurationSingle? then
        s.(logDurations := logDurations + [currentDurationTime])
      else s.(logResolutions := logResolutions + [currentDurationTime])
    }

    function TakeValue(): LexerState
    {
      this.(triggerResourceValues := triggerResourceValues + [currentResourceValue])
    }

    function ProduceTriggers(): LexerState
    {
      var produced := CrossTriggers(currentTriggerType, triggerResourceValues, triggerDurationTimes);
      this.(triggerTypes := triggerTypes + produced, currentTriggerType := LastOr(produced, currentTriggerType),
            triggerResourceValues := [], triggerDurationTimes := [])
    }

    function ProduceLogs(): LexerState
    {
      var produced := CrossLogs(currentLogType, logDurations, logResolutions);
      this.(logTypes := logTypes + produced, currentLogType := LastOr(produced, currentLogType),
            logDurations := [], logResolutions := [])
    }

    /** The action of one rule; None when the condition has no such rule or the stack runs empty. */
    function Step(token: Token): Option<LexerState>
    {
      match token
      case Blank => Some(this)
      case KeyTrigger => Some(Push(TriggerEnv))
      case KeyLog => Some(Push(LogEnv))
      case KeyResource(resource) =>
        if condition.TriggerEnv? then Some(this.(currentTriggerType := currentTriggerType.(resource := resource)))
        else if condition.LogEnv? then Some(this.(currentLogType := currentLogType.(resource := resource)))
        else None
      case KeyFluctuation(fluctuation, several) =>
        if condition.TriggerEnv? then
          Some(this.(currentTriggerType := currentTriggerType.(fluctuation := fluctuation))
               .Push(if several then ResourceSet else ResourceSingle))
        else None
      case KeyLast(several) =>
        if condition.TriggerEnv? then Some(Push(if several then TriggerDurationSet else TriggerDurationSingle))
        else None
      case KeyFor(several) =>
        if condition.LogEnv? then Some(Push(if several then LogDurationSet else LogDurationSingle)) else None
      case KeyResolution(several) =>
        if condition.LogEnv? then Some(Push(if several then LogResolutionSet else LogResolutionSingle)) else None
      case Number(value) =>
        if condition.ResourceSet? || condition.ResourceSingle? then
          Some(this.(currentResourceValue := currentResourceValue.(value := value)))
        else if ReadsDuration() then Some(this.(lastReadDurationElement := value))
        else None
      case ValueUnit(unit) =>
        var s := this.(currentResourceValue := currentResourceValue.(unitType := unit));
        if condition.ResourceSet? then Some(s)
        else if condition.ResourceSingle? then s.TakeValue().Pop()
        else None
      case TimeUnit(time) =>
        if ReadsDuration() then
          Some(this.(currentDurationTime := currentDurationTime + lastReadDurationElement * SecondsIn(time)))
        else None
      case Comma =>
        if condition.ResourceSet? then Some(TakeValue())
        else if condition.TriggerDurationSet? || condition.LogDurationSet? || condition.LogResolutionSet? then
          Some(TakeDuration())
        else None
      case Close =>
        if condition.ResourceSet? then TakeValue().Pop()
        else if condition.LogDurationSet? then TakeDuration().Pop()
        else if condition.TriggerDurationSet? || condition.LogResolutionSet? then Finish()
        else None
      case Spaces =>
        if condition.LogDurationSingle? then TakeDuration().Pop() else None
      case EndOfLine =>
        if condition.TriggerDurationSingle? || condition.LogResolutionSingle? then Finish() else None
    }

    /** The end of a directive: back to the outermost condition, then the cross product. */
    function Finish(): Option<LexerState>
    {
      match TakeDuration().PopTwice()
      case None => None
      case Some(s) =>
        if condition.TriggerDurationSet? || condition.TriggerDurationSingle? then Some(s.ProduceTriggers())
        else Some(s.ProduceLogs())
    }

    function Run(tokens: seq<Token>): Option<LexerState>
      decreases |tokens|
    {
      if tokens == [] then Some(this) else
        match Step(tokens[0]) case None => None case Some(s) => s.Run(tokens[1..])
    }

    /** Between directives: outermost condition, empty stack, nothing collected. */
    predicate Clean()
    {
      && condition.Initial? && stack == [] && currentDurationTime == 0
      && triggerResourceValues == [] && triggerDurationTimes == [] && logDurations == [] && logResolutions == []
    }

    /** The stack never holds more than two saved conditions on the way through the tokens. */
    predicate StaysShallow(tokens: seq<Token>)
      decreases |tokens|
    {
      |stack| <= 2 && (tokens == [] || (Step(tokens[0]).Some? && Step(tokens[0]).value.StaysShallow(tokens[1..])))
    }
  }

  function LastOr<T>(xs: seq<T>, otherwise: T): T
  {
    if xs == [] then otherwise else xs[|xs| - 1]
  }

  /** All combinations, the durations running fastest. */
  function CrossTriggers(base: TriggerType, values: seq<ResourceValue>, durations: seq<int>): seq<TriggerType>
  {
    FlatMap((v: ResourceValue) => WithDurations(base.(triggerValue := v), durations), values)
  }

  function WithDurations(base: TriggerType, durations: seq<int>): seq<TriggerType>
  {
    FlatMap((d: int) => [base.(duration := d)], durations)
  }

  /** All combinations, the resolutions running fastest. */
  function CrossLogs(base: LogType, durations: seq<int>, resolutions: seq<int>): seq<LogType>
  {
    FlatMap((d: int) => WithResolutions(base.(duration := d), resolutions), durations)
  }

  function WithResolutions(base: LogType, resolutions: seq<int>): seq<LogType>
  {
    FlatMap((r: int) => [base.(resolution := r)], resolutions)
  }

  /** A duration as it is written: counts with their units. */
  datatype Term = Term(count: int, unit: DurationUnit)

  function Total(terms: seq<Term>): int
  {
    if terms == [] then 0 else terms[0].count * SecondsIn(terms[0].unit) + Total(terms[1..])
  }

  function Totals(durations: seq<seq<Term>>): seq<int>
  {
    if durations == [] then [] else [Total(durations[0])] + Totals(durations[1..])
  }

  /** One element written plainly, or several in braces. */
  datatype Group<T> = Plain(x: T) | Braces(xs: seq<T>)
  {
    function Elements(): seq<T>
    {
      if Plain? then [x] else xs
    }
  }

  datatype Directive =
    | TriggerDirective(
        resource: Resource, fluctuation: Fluctuation, values: Group<ResourceValue>, durations: Group<seq<Term>>)
    | LogDirective(resource: Resource, durations: Group<seq<Term>>, resolutions: Group<seq<Term>>)
    | EmptyLine

  predicate WellFormed(directive: Directive)
  {
    match directive
    case TriggerDirective(_, _, values, durations) => values.Elements() != [] && durations.Elements() != []
    case LogDirective(_, durations, resolutions) => durations.Elements() != [] && resolutions.Elements() != []
    case EmptyLine => true
  }

  function TermTokens(terms: seq<Term>): seq<Token>
  {
    if terms == [] then [] else [Number(terms[0].count), TimeUnit(terms[0].unit)] + TermTokens(terms[1..])
  }

  function DurationList(durations: seq<seq<Term>>): seq<Token>
  {
    if |durations| <= 1 then (if durations == [] then [] else TermTokens(durations[0])) + [Close]
    else TermTokens(durations[0]) + [Comma] + DurationList(durations[1..])
  }

  function DurationTokens(durations: Group<seq<Term>>, end: Token): seq<Token>
  {
    if durations.Plain? then TermTokens(durations.x) + [end] else DurationList(durations.xs)
  }

  function ValueTokens(value: ResourceValue): seq<Token>
  {
    [Number(value.value), ValueUnit(value.unitType)]
  }

  function ValueList(values: seq<ResourceValue>): seq<Token>
  {
    if |values| <= 1 then (if values == [] then [] else ValueTokens(values[0])) + [Close]
    else ValueTokens(values[0]) + [Comma] + ValueList(values[1..])
  }

  /** The rules a directive matches, in order. */
  function Tokens(directive: Directive): seq<Token>
  {
    match directive
    case TriggerDirective(resource, fluctuation, values, durations) =>
      [KeyTrigger, KeyResource(resource), KeyFluctuation(fluctuation, values.Braces?)]
      + ((if values.Plain? then ValueTokens(values.x) else ValueList(values.xs))
      + ([KeyLast(durations.Braces?)] + DurationTokens(durations, EndOfLine)))
    case LogDirective(resource, durations, resolutions) =>
      [KeyLog, KeyResource(resource), KeyFor(durations.Braces?)]
      + (DurationTokens(durations, Spaces)
      + ([KeyResolution(resolutions.Braces?)] + DurationTokens(resolutions, EndOfLine)))
    case EmptyLine => [Blank]
  }

  /** What a directive means. */
  function Triggers(directive: Directive): seq<TriggerType>
  {
    match directive
    case TriggerDirective(resource, fluctuation, values, durations) =>
      CrossTriggers(TriggerType(resource, fluctuation, ResourceValue(Percent, 0), 0), values.Elements(),
                    Totals(durations.Elements()))
    case _ => []
  }

  function Logs(directive: Directive): seq<LogType>
  {
    match directive
    case LogDirective(resource, durations, resolutions) =>
      CrossLogs(LogType(resource, 0, 0), Totals(durations.Elements()), Totals(resolutions.Elements()))
    case _ => []
  }

  ghost predicate Leads(s: LexerState, tokens: seq<Token>, t: LexerState)
  {
    s.Run(tokens) == Some(t) && s.StaysShallow(tokens)
  }

  lemma {:induction false} LeadsConcat(s: LexerState, a: seq<Token>, m: LexerState, b: seq<Token>, t: LexerState)
    requires Leads(s, a, m) && Leads(m, b, t)
    ensures Leads(s, a + b, t)
    decreases |a|
  {
    hide LexerState.Step;
    if a == [] {
      assert a + b == b;
    } else {
      var next := s.Step(a[0]).value;
      LeadsConcat(next, a[1..], m, b, t);
      assert (a + b)[1..] == a[1..] + b && (a + b)[0] == a[0];
    }
  }

  lemma LeadsOne(s: LexerState, token: Token, t: LexerState)
    requires s.Step(token) == Some(t) && |s.stack| <= 2 && |t.stack| <= 2
    ensures Leads(s, [token], t)
  {
    hide LexerState.Step;
    assert [token][1..] == [] && t.Run([]) == Some(t) && t.StaysShallow([]);
  }

  lemma LeadsTwo(s: LexerState, a: Token, m: LexerState, b: Token, t: LexerState)
    requires s.Step(a) == Some(m) && m.Step(b) == Some(t) && |s.stack| <= 2 && |m.stack| <= 2 && |t.stack| <= 2
    ensures Leads(s, [a, b], t)
  {
    hide LexerState.Step;
    LeadsOne(s, a, m);
    LeadsOne(m, b, t);
    LeadsConcat(s, [a], m, [b], t);
    assert [a] + [b] == [a, b];
  }

  /** Reading the terms of one duration adds up their seconds. */
  lemma {:induction false} TermsLead(s: LexerState, terms: seq<Term>) returns (t: LexerState)
    requires s.ReadsDuration() && |s.stack| <= 2
    ensures Leads(s, TermTokens(terms), t)
    ensures t == s.(currentDurationTime := s.currentDurationTime + Total(terms),
                    lastReadDurationElement := t.lastReadDurationElement)
    decreases |terms|
  {
    if terms == [] {
      t := s;
    } else {
      var n, u := terms[0].count, terms[0].unit;
      var m := s.(lastReadDurationElement := n);
      var added := m.(currentDurationTime := s.currentDurationTime + n * SecondsIn(u));
      LeadsTwo(s, Number(n), m, TimeUnit(u), added);
      t := TermsLead(added, terms[1..]);
      LeadsConcat(s, [Number(n), TimeUnit(u)], added, TermTokens(terms[1..]), t);
    }
  }

  /** The vector the condition is about, with more durations in it. */
  function Collected(s: LexerState, totals: seq<int>): LexerState
  {
    if s.condition.TriggerDurationSet? || s.condition.TriggerDurationSingle? then
      s.(triggerDurationTimes := s.triggerDurationTimes + totals)
    else if s.condition.LogDurationSet? || s.condition.LogDurationSingle? then
      s.(logDurations := s.logDurations + totals)
    else s.(logResolutions := s.logResolutions + totals)
  }

  /** The way out of a duration condition. */
  function Ended(s: LexerState): Option<LexerState>
  {
    if s.condition.LogDurationSet? || s.condition.LogDurationSingle? then s.Pop()
    else match s.PopTwice()
         case None => None
         case Some(t) =>
           Some(if s.condition.TriggerDurationSet? || s.condition.TriggerDurationSingle?
                then t.ProduceTriggers() else t.ProduceLogs())
  }

  predicate InDurationSet(s: LexerState)
  {
    s.condition.TriggerDurationSet? || s.condition.LogDurationSet? || s.condition.LogResolutionSet?
  }

  /** The token that ends a duration takes it and leaves the condition. */
  predicate Ends(s: LexerState, end: Token)
  {
    || (end.Close? && InDurationSet(s))
    || (end.Spaces? && s.condition.LogDurationSingle?)
    || (end.EndOfLine? && (s.condition.TriggerDurationSingle? || s.condition.LogResolutionSingle?))
  }

  lemma LastDurationLeads(s: LexerState, terms: seq<Term>, end: Token) returns (t: LexerState)
    requires s.ReadsDuration() && Ends(s, end) && |s.stack| == 2 && s.currentDurationTime == 0
    ensures Leads(s, TermTokens(terms) + [end], t)
    ensures Ended(Collected(s, [Total(terms)]).(lastReadDurationElement := t.lastReadDurationElement)) == Some(t)
  {
    hide CrossLogs, CrossTriggers, Total, TermTokens;
    var m := TermsLead(s, terms);
    t := m.Step(end).value;
    LeadsOne(m, end, t);
    LeadsConcat(s, TermTokens(terms), m, [end], t);
  }

  /** A braced list of durations is collected element by element. */
  lemma {:induction false} DurationListLeads(s: LexerState, durations: seq<seq<Term>>) returns (t: LexerState)
    requires s.ReadsDuration() && InDurationSet(s) && |s.stack| == 2 && s.currentDurationTime == 0 && durations != []
    ensures Leads(s, DurationList(durations), t)
    ensures Ended(Collected(s, Totals(durations)).(lastReadDurationElement := t.lastReadDurationElement)) == Some(t)
    decreases |durations|
  {
    if |durations| == 1 {
      t := LastDurationLeads(s, durations[0], Close);
      assert Totals(durations) == [Total(durations[0])];
    } else {
      var m := TermsLead(s, durations[0]);
      var taken := m.TakeDuration();
      LeadsOne(m, Comma, taken);
      t := DurationListLeads(taken, durations[1..]);
      LeadsConcat(s, TermTokens(durations[0]), m, [Comma], taken);
      LeadsConcat(s, TermTokens(durations[0]) + [Comma], taken, DurationList(durations[1..]), t);
      CollectedTwice(s, Total(durations[0]), Totals(durations[1..]));
      assert taken == Collected(s, [Total(durations[0])]).(lastReadDurationElement := m.lastReadDurationElement);
    }
  }

  lemma CollectedTwice(s: LexerState, first: int, rest: seq<int>)
    ensures Collected(Collected(s, [first]), rest) == Collected(s, [first] + rest)
  {
    Associative(s.triggerDurationTimes, [first], rest);
    Associative(s.logDurations, [first], rest);
    Associative(s.logResolutions, [first], rest);
  }

  lemma DurationsLead(s: LexerState, durations: Group<seq<Term>>, end: Token) returns (t: LexerState)
    requires s.ReadsDuration() && |s.stack| == 2 && s.currentDurationTime == 0 && durations.Elements() != []
    requires if durations.Braces? then InDurationSet(s) else Ends(s, end) && !end.Close?
    ensures Leads(s, DurationTokens(durations, end), t)
    ensures Ended(Collected(s, Totals(durations.Elements())).(lastReadDurationElement := t.lastReadDurationElement))
            == Some(t)
  {
    if durations.Plain? {
      t := LastDurationLeads(s, durations.x, end);
      assert Totals([durations.x]) == [Total(durations.x)];
    } else {
      t := DurationListLeads(s, durations.xs);
    }
  }

  /** A braced list of resource values. */
  lemma {:induction false} ValueListLeads(s: LexerState, values: seq<ResourceValue>) returns (t: LexerState)
    requires s.condition.ResourceSet? && |s.stack| == 2 && values != []
    ensures Leads(s, ValueList(values), t)
    ensures s.(triggerResourceValues := s.triggerResourceValues + values,
               currentResourceValue := t.currentResourceValue).Pop() == Some(t)
    decreases |values|
  {
    var v := values[0];
    var numbered := s.(currentResourceValue := s.currentResourceValue.(value := v.value));
    var read := s.(currentResourceValue := v);
    LeadsTwo(s, Number(v.value), numbered, ValueUnit(v.unitType), read);
    if |values| == 1 {
      t := read.TakeValue().Pop().value;
      LeadsOne(read, Close, t);
      LeadsConcat(s, ValueTokens(v), read, [Close], t);
      assert values == [v];
    } else {
      LeadsOne(read, Comma, read.TakeValue());
      t := ValueListLeads(read.TakeValue(), values[1..]);
      LeadsConcat(s, ValueTokens(v), read, [Comma], read.TakeValue());
      LeadsConcat(s, ValueTokens(v) + [Comma], read.TakeValue(), ValueList(values[1..]), t);
      Associative(s.triggerResourceValues, [v], values[1..]);
      assert values == [v] + values[1..];
    }
  }

  lemma ValuesLead(s: LexerState, values: Group<ResourceValue>) returns (t: LexerState)
    requires (if values.Braces? then s.condition.ResourceSet? else s.condition.ResourceSingle?) && |s.stack| == 2
    requires values.Elements() != []
    ensures Leads(s, if values.Plain? then ValueTokens(values.x) else ValueList(values.xs), t)
    ensures s.(triggerResourceValues := s.triggerResourceValues + values.Elements(),
               currentResourceValue := t.currentResourceValue).Pop() == Some(t)
  {
    if values.Plain? {
      var v := values.x;
      var numbered := s.(currentResourceValue := s.currentResourceValue.(value := v.value));
      t := s.(currentResourceValue := v).TakeValue().Pop().value;
      LeadsTwo(s, Number(v.value), numbered, ValueUnit(v.unitType), t);
    } else {
      t := ValueListLeads(s, values.xs);
    }
  }

  lemma {:induction false} TriggersIgnoreBase(a: TriggerType, b: TriggerType, values: seq<ResourceValue>,
                                              durations: seq<int>)
    requires a.resource == b.resource && a.fluctuation == b.fluctuation
    ensures CrossTriggers(a, values, durations) == CrossTriggers(b, values, durations)
  {
    if values != [] {
      TriggersIgnoreBase(a, b, values[1..], durations);
      DurationsIgnoreBase(a.(triggerValue := values[0]), b.(triggerValue := values[0]), durations);
    }
  }

  lemma {:induction false} DurationsIgnoreBase(a: TriggerType, b: TriggerType, durations: seq<int>)
    requires a.(duration := 0) == b.(duration := 0)
    ensures WithDurations(a, durations) == WithDurations(b, durations)
  {
    if durations != [] {
      DurationsIgnoreBase(a, b, durations[1..]);
    }
  }

  lemma {:induction false} LogsIgnoreBase(a: LogType, b: LogType, durations: seq<int>, resolutions: seq<int>)
    requires a.resource == b.resource
    ensures CrossLogs(a, durations, resolutions) == CrossLogs(b, durations, resolutions)
  {
    if durations != [] {
      LogsIgnoreBase(a, b, durations[1..], resolutions);
      ResolutionsIgnoreBase(a.(duration := durations[0]), b.(duration := durations[0]), resolutions);
    }
  }

  lemma {:induction false} ResolutionsIgnoreBase(a: LogType, b: LogType, resolutions: seq<int>)
    requires a.(resolution := 0) == b.(resolution := 0)
    ensures WithResolutions(a, resolutions) == WithResolutions(b, resolutions)
  {
    if resolutions != [] {
      ResolutionsIgnoreBase(a, b, resolutions[1..]);
    }
  }

  /** Between directives with the outcome of one more directive. */
  predicate Produced(s: LexerState, directive: Directive, t: LexerState)
  {
    t.Clean() && t.triggerTypes == s.triggerTypes + Triggers(directive) && t.logTypes == s.logTypes + Logs(directive)
  }

  lemma TriggerLeads(s: LexerState, d: Directive) returns (t: LexerState)
    requires s.Clean() && d.TriggerDirective? && WellFormed(d)
    ensures Leads(s, Tokens(d), t) && Produced(s, d, t)
  {
    var head := [KeyTrigger, KeyResource(d.resource), KeyFluctuation(d.fluctuation, d.values.Braces?)];
    var s3 := TriggerHead(s, d, head);
    var s4 := ValuesLead(s3, d.values);
    var s5 := s4.Push(if d.durations.Braces? then TriggerDurationSet else TriggerDurationSingle);
    var next := KeyLast(d.durations.Braces?);
    LeadsOne(s4, next, s5);
    t := DurationsLead(s5, d.durations, EndOfLine);
    var values := if d.values.Plain? then ValueTokens(d.values.x) else ValueList(d.values.xs);
    var durations := DurationTokens(d.durations, EndOfLine);
    TriggerProduced(s, d, s3, s4, s5, t);
    hide Leads, ValueTokens, ValueList, DurationTokens, Produced, LexerState.Step;
    LeadsConcat(s4, [next], s5, durations, t);
    LeadsConcat(s3, values, s4, [next] + durations, t);
    LeadsConcat(s, head, s3, values + ([next] + durations), t);
  }

  lemma TriggerProduced(s: LexerState, d: Directive, s3: LexerState, s4: LexerState, s5: LexerState, t: LexerState)
    requires s.Clean() && d.TriggerDirective?
    requires s3 == s.(currentTriggerType := s.currentTriggerType.(resource := d.resource, fluctuation := d.fluctuation),
                      condition := if d.values.Braces? then ResourceSet else ResourceSingle,
                      stack := [Initial, TriggerEnv])
    requires s3.(triggerResourceValues := s3.triggerResourceValues + d.values.Elements(),
                 currentResourceValue := s4.currentResourceValue).Pop() == Some(s4)
    requires s5 == s4.Push(if d.durations.Braces? then TriggerDurationSet else TriggerDurationSingle)
    requires Ended(Collected(s5, Totals(d.durations.Elements())).(
                     lastReadDurationElement := t.lastReadDurationElement)) == Some(t)
    ensures Produced(s, d, t)
  {
    hide CrossLogs, CrossTriggers, Totals, Total;
    assert s5.triggerResourceValues == d.values.Elements();
    assert [] + Totals(d.durations.Elements()) == Totals(d.durations.Elements());
    assert s.logTypes + [] == s.logTypes;
    TriggersIgnoreBase(s5.currentTriggerType, TriggerType(d.resource, d.fluctuation, ResourceValue(Percent, 0), 0),
                       d.values.Elements(), Totals(d.durations.Elements()));
  }

  lemma TriggerHead(s: LexerState, d: Directive, head: seq<Token>) returns (t: LexerState)
    requires s.Clean() && d.TriggerDirective?
    requires head == [KeyTrigger, KeyResource(d.resource), KeyFluctuation(d.fluctuation, d.values.Braces?)]
    ensures Leads(s, head, t)
    ensures t == s.(currentTriggerType := s.currentTriggerType.(resource := d.resource, fluctuation := d.fluctuation),
                    condition := if d.values.Braces? then ResourceSet else ResourceSingle,
                    stack := [Initial, TriggerEnv])
  {
    var s1 := s.Push(TriggerEnv);
    var s2 := s1.(currentTriggerType := s1.currentTriggerType.(resource := d.resource));
    t := s2.Step(head[2]).value;
    LeadsTwo(s, head[0], s1, head[1], s2);
    LeadsOne(s2, head[2], t);
    LeadsConcat(s, [head[0], head[1]], s2, [head[2]], t);
    assert head == [head[0], head[1]] + [head[2]];
  }

  lemma LogLeads(s: LexerState, d: Directive) returns (t: LexerState)
    requires s.Clean() && d.LogDirective? && WellFormed(d)
    ensures Leads(s, Tokens(d), t) && Produced(s, d, t)
  {
    var head := [KeyLog, KeyResource(d.resource), KeyFor(d.durations.Braces?)];
    var next := KeyResolution(d.resolutions.Braces?);
    var durations, resolutions := DurationTokens(d.durations, Spaces), DurationTokens(d.resolutions, EndOfLine);
    var s3 := LogHead(s, d, head);
    var s4 := DurationsLead(s3, d.durations, Spaces);
    var s5 := s4.Push(if d.resolutions.Braces? then LogResolutionSet else LogResolutionSingle);
    LeadsOne(s4, next, s5);
    t := DurationsLead(s5, d.resolutions, EndOfLine);
    LogProduced(s, d, s3, s4, s5, t);
    hide Leads, DurationTokens, Produced, LexerState.Step;
    LeadsConcat(s4, [next], s5, resolutions, t);
    LeadsConcat(s3, durations, s4, [next] + resolutions, t);
    LeadsConcat(s, head, s3, durations + ([next] + resolutions), t);
  }

  lemma LogProduced(s: LexerState, d: Directive, s3: LexerState, s4: LexerState, s5: LexerState, t: LexerState)
    requires s.Clean() && d.LogDirective?
    requires s3 == s.(currentLogType := s.currentLogType.(resource := d.resource),
                      condition := if d.durations.Braces? then LogDurationSet else LogDurationSingle,
                      stack := [Initial, LogEnv])
    requires Ended(Collected(s3, Totals(d.durations.Elements())).(
                     lastReadDurationElement := s4.lastReadDurationElement)) == Some(s4)
    requires s5 == s4.Push(if d.resolutions.Braces? then LogResolutionSet else LogResolutionSingle)
    requires Ended(Collected(s5, Totals(d.resolutions.Elements())).(
                     lastReadDurationElement := t.lastReadDurationElement)) == Some(t)
    ensures Produced(s, d, t)
  {
    hide CrossLogs, CrossTriggers, Totals, Total;
    assert s5.logDurations == Totals(d.durations.Elements());
    assert [] + Totals(d.resolutions.Elements()) == Totals(d.resolutions.Elements());
    assert s.triggerTypes + [] == s.triggerTypes;
    LogsIgnoreBase(s5.currentLogType, LogType(d.resource, 0, 0), Totals(d.durations.Elements()),
                   Totals(d.resolutions.Elements()));
  }

  lemma LogHead(s: LexerState, d: Directive, head: seq<Token>) returns (t: LexerState)
    requires s.Clean() && d.LogDirective?
    requires head == [KeyLog, KeyResource(d.resource), KeyFor(d.durations.Braces?)]
    ensures Leads(s, head, t)
    ensures t == s.(currentLogType := s.currentLogType.(resource := d.resource),
                    condition := if d.durations.Braces? then LogDurationSet else LogDurationSingle,
                    stack := [Initial, LogEnv])
  {
    var s1 := s.Push(LogEnv);
    var s2 := s1.(currentLogType := s1.currentLogType.(resource := d.resource));
    t := s2.Step(head[2]).value;
    LeadsTwo(s, head[0], s1, head[1], s2);
    LeadsOne(s2, head[2], t);
    LeadsConcat(s, [head[0], head[1]], s2, [head[2]], t);
    assert head == [head[0], head[1]] + [head[2]];
  }

  lemma DirectiveLeads(s: LexerState, d: Directive) returns (t: LexerState)
    requires s.Clean() && WellFormed(d)
    ensures Leads(s, Tokens(d), t) && Produced(s, d, t)
  {
    match d {
      case TriggerDirective(_, _, _, _) => t := TriggerLeads(s, d);
      case LogDirective(_, _, _) => t := LogLeads(s, d);
      case EmptyLine =>
        t := s;
        LeadsOne(s, Blank, s);
    }
  }

  /**
   * Reading a list of well-formed directives yields the concatenated cross products, value-major for triggers and
   * duration-major for logs, without the stack running empty or holding more than two conditions, and ends clean.
   */
  lemma {:induction false} ConfigurationRead(s: LexerState, directives: seq<Directive>) returns (t: LexerState)
    requires s.Clean() && forall d :: d in directives ==> WellFormed(d)
    ensures Leads(s, FlatMap(Tokens, directives), t) && t.Clean()
    ensures t.triggerTypes == s.triggerTypes + FlatMap(Triggers, directives)
    ensures t.logTypes == s.logTypes + FlatMap(Logs, directives)
    decreases |directives|
  {
    hide WellFormed, Tokens, Triggers, Logs, LexerState.Step;
    if directives == [] {
      t := s;
      assert s.triggerTypes + [] == s.triggerTypes && s.logTypes + [] == s.logTypes;
    } else {
      var d, rest := directives[0], directives[1..];
      var m := DirectiveLeads(s, d);
      t := ConfigurationRead(m, rest);
      LeadsConcat(s, Tokens(d), m, FlatMap(Tokens, rest), t);
      Associative(s.triggerTypes, Triggers(d), FlatMap(Triggers, rest));
      Associative(s.logTypes, Logs(d), FlatMap(Logs, rest));
    }
  }

  /** The generated lexer with its file-scope variables. */
  class Lexer {
    var condition: Condition
    var stack: seq<Condition>
    var currentDurationTime: int
    var lastReadDurationElement: int
    var currentTriggerType: TriggerType
    var triggerTypes: seq<TriggerType>
    var currentResourceValue: ResourceValue
    var triggerResourceValues: seq<ResourceValue>
    var triggerDurationTimes: seq<int>
    var currentLogType: LogType
    var logTypes: seq<LogType>
    var logDurations: seq<int>
    var logResolutions: seq<int>

    function View(): LexerState
      reads this
    {
      LexerState(condition, stack, currentDurationTime, lastReadDurationElement, currentTriggerType, triggerTypes,
                 currentResourceValue, triggerResourceValues, triggerDurationTimes,
                 currentLogType, logTypes, logDurations, logResolutions)
    }

    constructor ()
      ensures View().Clean() && triggerTypes == [] && logTypes == []
    {
      condition, stack, currentDurationTime, lastReadDurationElement := Initial, [], 0, 0;
      currentResourceValue := ResourceValue(Percent, 0);
      currentTriggerType := TriggerType(Cpu, Under, ResourceValue(Percent, 0), 0);
      currentLogType := LogType(Cpu, 0, 0);
      triggerTypes, triggerResourceValues, triggerDurationTimes := [], [], [];
      logTypes, logDurations, logResolutions := [], [], [];
    }

    method PushState(next: Condition)
      modifies this`condition, this`stack
      ensures View() == old(View()).Push(next)
    {
      stack, condition := stack + [condition], next;
    }

    method PopState() returns (ok: bool)
      modifies this`condition, this`stack
      ensures ok <==> old(View()).Pop().Some?
      ensures View() == if ok then old(View()).Pop().value else old(View())
    {
      if stack == [] {
        return false;
      }
      condition, stack := stack[|stack| - 1], stack[..|stack| - 1];
      return true;
    }

    method ProduceTriggersCrossproduct()
      modifies this`currentTriggerType, this`triggerTypes, this`triggerResourceValues, this`triggerDurationTimes
      ensures View() == old(View()).ProduceTriggers()
    {
      ghost var base, before := currentTriggerType, triggerTypes;
      for i := 0 to |triggerResourceValues|
        invariant triggerResourceValues == old(triggerResourceValues)
        invariant triggerDurationTimes == old(triggerDurationTimes)
        invariant currentTriggerType.resource == base.resource && currentTriggerType.fluctuation == base.fluctuation
        invariant triggerTypes == before + CrossTriggers(base, triggerResourceValues[..i], triggerDurationTimes)
        invariant currentTriggerType == LastOr(triggerTypes[|before|..], base)
      {
        var res := triggerResourceValues[i];
        CrossTriggersNext(base, triggerResourceValues, i, triggerDurationTimes);
        ghost var row := base.(triggerValue := res);
        ghost var outer := triggerTypes;
        for j := 0 to |triggerDurationTimes|
          invariant triggerResourceValues == old(triggerResourceValues)
          invariant triggerDurationTimes == old(triggerDurationTimes)
          invariant currentTriggerType.resource == base.resource && currentTriggerType.fluctuation == base.fluctuation
          invariant triggerTypes == outer + WithDurations(row, triggerDurationTimes[..j])
          invariant currentTriggerType == LastOr(triggerTypes[|before|..], base)
        {
          WithDurationsNext(row, triggerDurationTimes, j);
          currentTriggerType := currentTriggerType.(triggerValue := res);
          currentTriggerType := currentTriggerType.(duration := triggerDurationTimes[j]);
          Associative(outer, WithDurations(row, triggerDurationTimes[..j]), [currentTriggerType]);
          triggerTypes := triggerTypes + [currentTriggerType];
        }
        assert triggerDurationTimes[..|triggerDurationTimes|] == triggerDurationTimes;
        Associative(before, CrossTriggers(base, triggerResourceValues[..i], triggerDurationTimes),
                    WithDurations(row, triggerDurationTimes));
      }
      assert triggerResourceValues[..|triggerResourceValues|] == triggerResourceValues;
      triggerResourceValues, triggerDurationTimes := [], [];
    }

    method ProduceLogsCrossproduct()
      modifies this`currentLogType, this`logTypes, this`logDurations, this`logResolutions
      ensures View() == old(View()).ProduceLogs()
    {
      ghost var base, before := currentLogType, logTypes;
      for i := 0 to |logDurations|
        invariant logDurations == old(logDurations) && logResolutions == old(logResolutions)
        invariant currentLogType.resource == base.resource
        invariant logTypes == before + CrossLogs(base, logDurations[..i], logResolutions)
        invariant currentLogType == LastOr(logTypes[|before|..], base)
      {
        var duration := logDurations[i];
        CrossLogsNext(base, logDurations, i, logResolutions);
        ghost var row := base.(duration := duration);
        ghost var outer := logTypes;
        for j := 0 to |logResolutions|
          invariant logDurations == old(logDurations) && logResolutions == old(logResolutions)
          invariant currentLogType.resource == base.resource
          invariant logTypes == outer + WithResolutions(row, logResolutions[..j])
          invariant currentLogType == LastOr(logTypes[|before|..], base)
        {
          WithResolutionsNext(row, logResolutions, j);
          currentLogType := currentLogType.(resolution := logResolutions[j]);
          currentLogType := currentLogType.(duration := duration);
          Associative(outer, WithResolutions(row, logResolutions[..j]), [currentLogType]);
          logTypes := logTypes + [currentLogType];
        }
        assert logResolutions[..|logResolutions|] == logResolutions;
        Associative(before, CrossLogs(base, logDurations[..i], logResolutions), WithResolutions(row, logResolutions));
      }
      assert logDurations[..|logDurations|] == logDurations;
      logDurations, logResolutions := [], [];
    }

    /** The duration read so far goes to one of three vectors, and the sum starts again. */
    method TakeDuration()
      modifies this`triggerDurationTimes, this`logDurations, this`logResolutions, this`currentDurationTime
      ensures View() == old(View()).TakeDuration()
    {
      if condition.TriggerDurationSet? || condition.TriggerDurationSingle? {
        triggerDurationTimes := triggerDurationTimes + [currentDurationTime];
      } else if condition.LogDurationSet? || condition.LogDurationSingle? {
        logDurations := logDurations + [currentDurationTime];
      } else {
        logResolutions := logResolutions + [currentDurationTime];
      }
      currentDurationTime := 0;
    }

    /** The end-of-line actions. */
    method Finish() returns (ok: bool)
      modifies this
      ensures ok <==> old(View()).Finish().Some?
      ensures ok ==> View() == old(View()).Finish().value
    {
      hide LexerState.ProduceTriggers, LexerState.ProduceLogs;
      var ofTrigger := condition.TriggerDurationSet? || condition.TriggerDurationSingle?;
      TakeDuration();
      ok := PopState();
      if ok {
        ok := PopState();
      }
      if ok {
        if ofTrigger {
          ProduceTriggersCrossproduct();
        } else {
          ProduceLogsCrossproduct();
        }
      }
    }

    /** The action of a keyword rule. */
    method Keyword(token: Token) returns (ok: bool)
      requires token.KeyTrigger? || token.KeyLog? || token.KeyResource? || token.KeyFluctuation?
               || token.KeyLast? || token.KeyFor? || token.KeyResolution?
      modifies this
      ensures ok <==> old(View()).Step(token).Some?
      ensures ok ==> View() == old(View()).Step(token).value
    {
      ok := true;
      match token {
        case KeyTrigger =>
          PushState(TriggerEnv);
        case KeyLog =>
          PushState(LogEnv);
        case KeyResource(resource) =>
          if condition.TriggerEnv? {
            currentTriggerType := currentTriggerType.(resource := resource);
          } else if condition.LogEnv? {
            currentLogType := currentLogType.(resource := resource);
          } else {
            ok := false;
          }
        case KeyFluctuation(fluctuation, several) =>
          ok := condition.TriggerEnv?;
          if ok {
            currentTriggerType := currentTriggerType.(fluctuation := fluctuation);
            PushState(if several then ResourceSet else ResourceSingle);
          }
        case KeyLast(several) =>
          ok := condition.TriggerEnv?;
          if ok {
            PushState(if several then TriggerDurationSet else TriggerDurationSingle);
          }
        case KeyFor(several) =>
          ok := condition.LogEnv?;
          if ok {
            PushState(if several then LogDurationSet else LogDurationSingle);
          }
        case KeyResolution(several) =>
          ok := condition.LogEnv?;
          if ok {
            PushState(if several then LogResolutionSet else LogResolutionSingle);
          }
      }
    }

    /** The action of a rule inside a value, duration or resolution condition. */
    method Element(token: Token) returns (ok: bool)
      requires token.Number? || token.ValueUnit? || token.TimeUnit? || token.Comma?
               || token.Close? || token.Spaces? || token.EndOfLine?
      modifies this
      ensures ok <==> old(View()).Step(token).Some?
      ensures ok ==> View() == old(View()).Step(token).value
    {
      hide LexerState.Finish;
      ok := true;
      match token {
        case Number(value) =>
          if condition.ResourceSet? || condition.ResourceSingle? {
            currentResourceValue := currentResourceValue.(value := value);
          } else if View().ReadsDuration() {
            lastReadDurationElement := value;
          } else {
            ok := false;
          }
        case ValueUnit(unit) =>
          ok := condition.ResourceSet? || condition.ResourceSingle?;
          if ok {
            currentResourceValue := currentResourceValue.(unitType := unit);
            if condition.ResourceSingle? {
              triggerResourceValues := triggerResourceValues + [currentResourceValue];
              ok := PopState();
            }
          }
        case TimeUnit(time) =>
          ok := View().ReadsDuration();
          if ok {
            currentDurationTime := currentDurationTime + lastReadDurationElement * SecondsIn(time);
          }
        case Comma =>
          if condition.ResourceSet? {
            triggerResourceValues := triggerResourceValues + [currentResourceValue];
          } else if condition.TriggerDurationSet? || condition.LogDurationSet? || condition.LogResolutionSet? {
            TakeDuration();
          } else {
            ok := false;
          }
        case Close =>
          if condition.ResourceSet? {
            triggerResourceValues := triggerResourceValues + [currentResourceValue];
            ok := PopState();
          } else if condition.LogDurationSet? {
            TakeDuration();
            ok := PopState();
          } else if condition.TriggerDurationSet? || condition.LogResolutionSet? {
            ok := Finish();
          } else {
            ok := false;
          }
        case Spaces =>
          ok := condition.LogDurationSingle?;
          if ok {
            TakeDuration();
            ok := PopState();
          }
        case EndOfLine =>
          ok := condition.TriggerDurationSingle? || condition.LogResolutionSingle?;
          if ok {
            ok := Finish();
          }
      }
    }

    /** The lexer's loop over a whole configuration. */
    method Lex(tokens: seq<Token>) returns (ok: bool)
      modifies this
      ensures ok <==> old(View()).Run(tokens).Some?
      ensures ok ==> View() == old(View()).Run(tokens).value
    {
      hide LexerState.Step;
      ok := true;
      for i := 0 to |tokens|
        invariant ok && View().Run(tokens[i..]) == old(View()).Run(tokens)
      {
        var token := tokens[i];
        ghost var rest := tokens[i..];
        assert rest[0] == token && rest[1..] == tokens[i + 1..];
        if token.KeyTrigger? || token.KeyLog? || token.KeyResource? || token.KeyFluctuation?
           || token.KeyLast? || token.KeyFor? || token.KeyResolution? {
          ok := Keyword(token);
        } else if !token.Blank? {
          ok := Element(token);
        } else {
          BlankStep(View());
        }
        if !ok {
          return;
        }
      }
    }

    /** A whole configuration of well-formed directives: the lists the monitor is built from. */
    method Configure(directives: seq<Directive>)
      requires View().Clean() && forall d :: d in directives ==> WellFormed(d)
      modifies this
      ensures View().Clean()
      ensures triggerTypes == old(triggerTypes) + FlatMap(Triggers, directives)
      ensures logTypes == old(logTypes) + FlatMap(Logs, directives)
    {
      hide LexerState.Step, LexerState.StaysShallow, WellFormed, Tokens, Triggers, Logs;
      ghost var t := ConfigurationRead(View(), directives);
      var ok := Lex(FlatMap(Tokens, directives));
      assert ok && View() == t;
    }
  }

  lemma BlankStep(s: LexerState)
    ensures s.Step(Blank) == Some(s)
  {}

  lemma WithDurationsNext(base: TriggerType, durations: seq<int>, i: nat)
    requires i < |durations|
    ensures WithDurations(base, durations[..i + 1]) ==
            WithDurations(base, durations[..i]) + [base.(duration := durations[i])]
  {
    FlatMapNext((d: int) => [base.(duration := d)], durations, i);
  }

  lemma CrossTriggersNext(base: TriggerType, values: seq<ResourceValue>, i: nat, durations: seq<int>)
    requires i < |values|
    ensures CrossTriggers(base, values[..i + 1], durations) ==
            CrossTriggers(base, values[..i], durations) + WithDurations(base.(triggerValue := values[i]), durations)
  {
    FlatMapNext((v: ResourceValue) => WithDurations(base.(triggerValue := v), durations), values, i);
  }

  lemma WithResolutionsNext(base: LogType, resolutions: seq<int>, i: nat)
    requires i < |resolutions|
    ensures WithResolutions(base, resolutions[..i + 1]) ==
            WithResolutions(base, resolutions[..i]) + [base.(resolution := resolutions[i])]
  {
    FlatMapNext((r: int) => [base.(resolution := r)], resolutions, i);
  }

  lemma CrossLogsNext(base: LogType, durations: seq<int>, i: nat, resolutions: seq<int>)
    requires i < |durations|
    ensures CrossLogs(base, durations[..i + 1], resolutions) ==
            CrossLogs(base, durations[..i], resolutions) + WithResolutions(base.(duration := durations[i]), resolutions)
  {
    FlatMapNext((d: int) => WithResolutions(base.(duration := d), resolutions), durations, i);
  }
}
