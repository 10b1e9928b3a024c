/** The configuration values the search reads from the AI settings. */
module Settings {

  /** The two evaluation weights the evaluator consults. */
  datatype Weights = Weights(mobility: int, centreControl: int)

  /** evaluationWeights.mobility and evaluationWeights.centerControl. */
  const Configured: Weights := Weights(5, 4)

  /** defaultDifficulty. */
  const DefaultDifficulty: int := 3
}
