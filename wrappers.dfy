/** The optional value shared by the knapsack genetic algorithm and the
    graph-colouring node map. */
module Wrappers {
  datatype Option<T> = None | Some(value: T)
}
