/**
 * Preconditions a command may declare. The engine collects them at load
 * time; nothing in the dispatch path evaluates them.
 */
module Preconditions {

  datatype EvaluationResult = Success | Failure(message: string)

  /** A created evaluator instance, identified by the evaluator class it was created from. */
  datatype PreconditionEvaluator = PreconditionEvaluator(className: string)
}
