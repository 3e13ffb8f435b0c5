// Error kinds shared by rotation governance and the key lifecycle; message
// texts are not modelled.
module TssErrors {
  datatype TssError =
    | InvalidThreshold
    | InvalidParticipantSet
    | GovernanceError
    | LifecycleError
    | LifecycleLocked
    | StaleVersion(expected: nat, got: nat)
    | RetiredError
    | DkgFailed
    | RefreshFailed
    | RotationFailed
}
