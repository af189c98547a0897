/** The constants of the configuration that the mirror's decisions depend on. */
module Config {

  const ECR_ACCOUNT_CN: string := "834204282212"
  const ECR_REGION_CN: string := "cn-northwest-1"

  /** Host name of the destination registry in the China region. */
  const ECR_DOMAIN_CN: string := ECR_ACCOUNT_CN + ".dkr.ecr." + ECR_REGION_CN + ".amazonaws.com.cn"

  /** Origin registry host to destination namespace, in the dictionary's insertion order. */
  const DOMAIN_MAP: seq<(string, string)> := [
    ("quayio", "quay"),
    ("quay.io", "quay"),
    ("gcr.io", "gcr"),
    ("asia.gcr.io", "gcr"),
    ("us.gcr.io", "gcr"),
    ("k8s.gcr.io", "gcr/google_containers"),
    ("public.ecr.aws", "amazonecr"),
    ("docker.io", "dockerhub"),
    ("nvcr.io", "nvcr"),
    ("registry.k8s.io", "k8s"),
    ("ghcr.io", "ghcr")
  ]
}
