/** The static clue table of the quiz and its lookup (backend/src/activities.ts). */
module Clues {
  import opened Wrappers

  /** One entry of the table; `answer` is the expected answer shown only to `validateAnswerAI`. */
  datatype Clue = Clue(hint: string, question: string, answer: string)

  /** What `getClue` hands out: the clue without its answer. */
  datatype ClueView = ClueView(hint: string, question: string)

  /** The one error `getClue` throws. */
  datatype ClueError = InvalidClueNumber

  function ErrorMessage(e: ClueError): string
  {
    match e
    case InvalidClueNumber => "Invalid clue number."
  }

  const FirstClue: int := 1
  const LastClue: int := 10

  /** The ten clues in key order: entry `i` is stored under key `i + 1`. */
  const Entries: seq<Clue> := [
    Clue("A fundamental building block in programming used to store data.",
         "What is the term for a variable that holds data in programming?",
         "Variable"),
    Clue("A control structure that allows for repeated execution of a block of code.",
         "What is the name of the loop structure that continues to execute as long as a condition is true?",
         "While Loop"),
    Clue("A JavaScript runtime built on Chrome's V8 engine.",
         "What is the name of the runtime environment that allows JavaScript to be executed on the server-side?",
         "Node.js"),
    Clue("The name of the project that Temporal was forked from.",
         "What was the precursor to Temporal?",
         "Cadence"),
    Clue("A Temporal-specific concept used to define workflows.",
         "In Temporal, what is the term for a sequence of activities that define a business process?",
         "Workflow"),
    Clue("A statically typed programming language developed by Microsoft.",
         "What is the name of the language that is a superset of JavaScript and adds static typing?",
         "TypeScript"),
    Clue("This was announced in Replay 2024.",
         "What is the name of the Temporal concept that allows cross namespace communication?",
         "Temporal Nexus"),
    Clue("A Temporal-specific feature that ensures activities are executed in a specific order.",
         "In Temporal, what mechanism is used to enforce the order of activity execution within a workflow?",
         "Workflow Task"),
    Clue("A Temporal concept that allows sync communication.",
         "What feature of Temporal enables workflows to receive signals and return a response?",
         "Workflow Persistence"),
    Clue("The default retry policy attempts.",
         "What is the default behavior of Temporal when an activity fails?",
         "Retry")
  ]

  /** A table with a clue under each key from 1 to 10 and under no other key. */
  ghost predicate Complete(t: map<int, Clue>)
  {
    forall k :: k in t <==> FirstClue <= k <= LastClue
  }

  /** The fixed table: keys exactly 1 to 10, every clue with a hint, a question and an answer. */
  function Table(): (t: map<int, Clue>)
    ensures Complete(t)
    ensures forall k :: k in t ==> t[k].hint != "" && t[k].question != "" && t[k].answer != ""
  {
    map k | FirstClue <= k <= LastClue :: EntryAt(k)
  }

  function EntryAt(k: int): Clue
    requires FirstClue <= k <= LastClue
  {
    Entries[k - 1]
  }

  /** Looking a clue number up in a table: an error for a missing key,
      otherwise the hint and question of that clue and nothing else. */
  function Lookup(table: map<int, Clue>, n: int): (r: Result<ClueView, ClueError>)
    ensures r.Failure? <==> n !in table
    ensures r.Failure? ==> r.error == InvalidClueNumber
    ensures r.Success? ==> r.value.hint == table[n].hint && r.value.question == table[n].question
  {
    if n in table then Success(ClueView(table[n].hint, table[n].question))
    else Failure(InvalidClueNumber)
  }

  /** `getClue`: the lookup in the fixed table. */
  function GetClue(n: int): (r: Result<ClueView, ClueError>)
    ensures r.Failure? <==> !(FirstClue <= n <= LastClue)
    ensures r.Success? ==> r.value == ClueView(Table()[n].hint, Table()[n].question)
  {
    Lookup(Table(), n)
  }

  /** The lookup never leaks an answer: two tables that agree on keys, hints and
      questions give the same result for every clue number, whatever their answers. */
  lemma LookupIgnoresAnswers(t1: map<int, Clue>, t2: map<int, Clue>, n: int)
    requires t1.Keys == t2.Keys
    requires forall k :: k in t1 ==> t1[k].hint == t2[k].hint && t1[k].question == t2[k].question
    ensures Lookup(t1, n) == Lookup(t2, n)
  {
  }
}
