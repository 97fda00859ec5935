TestResult.DisplayName,TestResult.Outcome,TestResult.Duration,TestResult.ResourceCount,RandomSeed
Controller.ExchangeOutcome (correctness),Failed,00:00:12.1437583,2106152,1
